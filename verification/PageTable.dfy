/** Four-level page tables as a tree of decoded tables, and what one write to a table does to every translation. */
module PageTable {
  import opened Options
  import opened Entry
  import Bits

  /** Each table frame with its 512 decoded entries. */
  type Tables = map<nat, seq<Target>>

  /** Tables of the lower half belong to one memory map; tables of the upper half are shared by all. */
  datatype Space = User(root: nat) | Kernel

  /** The place of a table in its tree: it serves the addresses whose bits above the table's are `prefix`. */
  datatype Pos = Pos(space: Space, level: Level, prefix: nat)

  /** Which table owns which place. */
  type Owners = map<nat, Pos>

  function Rank(level: Level): nat {
    match level
    case CR3 => 0
    case PML4 => 1
    case PDPT => 2
    case PD => 3
    case PT => 4
  }

  function Below(level: Level): Level
    requires !level.PT?
  {
    NextLevel(level).value
  }

  function Above(level: Level): Level
    requires !level.CR3?
  {
    match level
    case PML4 => CR3
    case PDPT => PML4
    case PD => PDPT
    case PT => PD
  }

  /** The bits of a 48-bit virtual address from the lowest index bit of a level upwards. */
  function Slot(level: Level, v: nat): nat
    decreases 4 - Rank(level), v
  {
    if level.PT? then v % 0x1_0000_0000_0000 / 0x1000 else Slot(Below(level), v) / 512
  }

  /** The index of an address in a table of a level. */
  function Idx(level: Level, v: nat): nat {
    Slot(level, v) % 512
  }

  /** The slots are the address shifted by 39, 30, 21 and 12 bits. */
  lemma SlotIsShift(v: nat)
    ensures Slot(PT, v) == v % 0x1_0000_0000_0000 / 0x1000
    ensures Slot(PD, v) == v % 0x1_0000_0000_0000 / 0x20_0000
    ensures Slot(PDPT, v) == v % 0x1_0000_0000_0000 / 0x4000_0000
    ensures Slot(PML4, v) == v % 0x1_0000_0000_0000 / 0x80_0000_0000
    ensures Slot(PML4, v) < 512
  {
    var x := v % 0x1_0000_0000_0000;
    assert Slot(PT, v) == x / 0x1000;
    assert Slot(PD, v) == x / 0x1000 / 512;
    assert Slot(PDPT, v) == Slot(PD, v) / 512;
    assert Slot(PML4, v) == Slot(PDPT, v) / 512;
  }

  lemma PdptField(v: nat)
    ensures v % 0x1_0000_0000_0000 / 0x4000_0000 % 512 == v % 0x80_0000_0000 / 0x4000_0000
  {
    var q, y := v / 0x80_0000_0000, v % 0x80_0000_0000;
    var h, r := q / 512, q % 512;
    var b, z := y / 0x4000_0000, y % 0x4000_0000;
    Bits.DivModUnique(v, 0x1_0000_0000_0000, h, r * 0x80_0000_0000 + y);
    Bits.DivModUnique(r * 0x80_0000_0000 + y, 0x4000_0000, r * 512 + b, z);
    Bits.DivModUnique(r * 512 + b, 512, r, b);
  }

  lemma PdField(v: nat)
    ensures v % 0x1_0000_0000_0000 / 0x20_0000 % 512 == v % 0x4000_0000 / 0x20_0000
  {
    var q, y := v / 0x4000_0000, v % 0x4000_0000;
    var h, r := q / 0x4_0000, q % 0x4_0000;
    var b, z := y / 0x20_0000, y % 0x20_0000;
    Bits.DivModUnique(v, 0x1_0000_0000_0000, h, r * 0x4000_0000 + y);
    Bits.DivModUnique(r * 0x4000_0000 + y, 0x20_0000, r * 512 + b, z);
    Bits.DivModUnique(r * 512 + b, 512, r, b);
  }

  lemma PtField(v: nat)
    ensures v % 0x1_0000_0000_0000 / 0x1000 % 512 == v % 0x20_0000 / 0x1000
  {
    var q, y := v / 0x20_0000, v % 0x20_0000;
    var h, r := q / 0x800_0000, q % 0x800_0000;
    var b, z := y / 0x1000, y % 0x1000;
    Bits.DivModUnique(v, 0x1_0000_0000_0000, h, r * 0x20_0000 + y);
    Bits.DivModUnique(r * 0x20_0000 + y, 0x1000, r * 512 + b, z);
    Bits.DivModUnique(r * 512 + b, 512, r, b);
  }

  /** The index is the bit field of the address. */
  lemma IdxIsField(v: nat)
    ensures Idx(PML4, v) == v % 0x1_0000_0000_0000 / 0x80_0000_0000 && Idx(PDPT, v) == v % 0x80_0000_0000 / 0x4000_0000
    ensures Idx(PD, v) == v % 0x4000_0000 / 0x20_0000 && Idx(PT, v) == v % 0x20_0000 / 0x1000
  {
    SlotIsShift(v);
    PdptField(v);
    PdField(v);
    PtField(v);
  }

  predicate IsKernel(v: nat) {
    256 <= Slot(PML4, v)
  }

  function SpaceOf(root: nat, v: nat): Space {
    if IsKernel(v) then Kernel else User(root)
  }

  /** The place of the table of a level on the walk for v. */
  function PosAt(root: nat, level: Level, v: nat): Pos {
    if level.PML4? then Pos(User(root), PML4, 0) else Pos(SpaceOf(root, v), level, Slot(level, v) / 512)
  }

  function Child(pos: Pos, i: nat): Pos
    requires !pos.level.PT?
  {
    Pos(if pos.level.PML4? && 256 <= i then Kernel else pos.space, Below(pos.level), pos.prefix * 512 + i)
  }

  lemma ChildOnWalk(root: nat, level: Level, v: nat)
    requires !level.CR3? && !level.PT?
    ensures Child(PosAt(root, level, v), Idx(level, v)) == PosAt(root, Below(level), v)
  {
    SlotIsShift(v);
  }

  /** The two addresses use the same entry of a level. */
  predicate Same(level: Level, r0: nat, v0: nat, r: nat, v: nat) {
    Slot(level, v) == Slot(level, v0) && SpaceOf(r, v) == SpaceOf(r0, v0)
  }

  lemma SameIsPlace(level: Level, r0: nat, v0: nat, r: nat, v: nat)
    requires !level.CR3? && (level.PML4? ==> !IsKernel(v0))
    ensures Same(level, r0, v0, r, v) <==>
            PosAt(r, level, v) == PosAt(r0, level, v0) && Idx(level, v) == Idx(level, v0)
  {
    if level.PML4? {
      SlotIsShift(v);
      SlotIsShift(v0);
    } else {
      SameUpper(level, v0, v);
    }
  }

  lemma SameUpper(level: Level, v0: nat, v: nat)
    ensures Slot(level, v) == Slot(level, v0) <==>
            Slot(level, v) / 512 == Slot(level, v0) / 512 && Idx(level, v) == Idx(level, v0)
  {
  }

  lemma SameAbove(low: Level, high: Level, r0: nat, v0: nat, r: nat, v: nat)
    requires Rank(high) <= Rank(low) && Same(low, r0, v0, r, v)
    ensures Same(high, r0, v0, r, v)
    decreases Rank(low)
  {
    if Rank(high) < Rank(low) {
      SameAbove(Above(low), high, r0, v0, r, v);
    }
  }

  // ---------------------------------------------------------------- well-formed trees

  /** An entry at index i of a table at `pos` is fine: a table below is owned by exactly that place. */
  predicate EntryOk(t: Target, own: Owners, pos: Pos, i: nat) {
    && (t.Page? ==> t.level == pos.level && !pos.level.PML4?)
    && (t.Table? ==> !pos.level.PT? && t.level == Below(pos.level) && t.addr in own && own[t.addr] == Child(pos, i))
  }

  predicate TableOk(tables: Tables, own: Owners, f: nat)
    requires f in own
  {
    && f in tables && |tables[f]| == 512 && !own[f].level.CR3?
    && forall i | 0 <= i < 512 :: EntryOk(tables[f][i], own, own[f], i)
  }

  predicate Sound(tables: Tables, own: Owners) {
    forall f | f in own :: TableOk(tables, own, f)
  }

  /** The upper half of every root is the same list of tables. */
  predicate Shared(tables: Tables, roots: set<nat>)
    requires forall r | r in roots :: r in tables && |tables[r]| == 512
  {
    forall r, s, i | r in roots && s in roots && 256 <= i < 512 :: tables[r][i] == tables[s][i] && tables[r][i].Table?
  }

  predicate Inv(tables: Tables, own: Owners, roots: set<nat>) {
    && Sound(tables, own)
    && (forall r | r in roots :: r in own && own[r] == Pos(User(r), PML4, 0))
    && (forall f | f in own && own[f].level.PML4? :: f in roots)
    && Shared(tables, roots)
  }

  // ---------------------------------------------------------------- walks

  /** The entry at which the walk from table f ends. */
  function Walk(tables: Tables, own: Owners, f: nat, v: nat): (t: Target)
    requires Sound(tables, own) && f in own
    ensures !t.Table?
    ensures t.Page? ==> Rank(own[f].level) <= Rank(t.level)
    decreases 4 - Rank(own[f].level), v
  {
    var e := tables[f][Idx(own[f].level, v)];
    if e.Table? then Walk(tables, own, e.addr, v) else e
  }

  /** The table of a level on the walk for v. */
  function TableAt(tables: Tables, own: Owners, root: nat, level: Level, v: nat): Option<nat>
    requires Sound(tables, own) && !level.CR3?
    decreases Rank(level), v
  {
    if level.PML4? then if root in own && own[root] == PosAt(root, PML4, v) then Some(root) else None
    else
      match TableAt(tables, own, root, Above(level), v)
      case None => None
      case Some(f) =>
        if f in own && own[f].level == Above(level) && tables[f][Idx(Above(level), v)].Table?
        then Some(tables[f][Idx(Above(level), v)].addr) else None
  }

  function Trans(tables: Tables, own: Owners, root: nat, v: nat): Option<nat>
    requires Sound(tables, own) && root in own
  {
    var t := Walk(tables, own, root, v);
    if t.Page? then Some(t.addr) else None
  }

  /** The physical address of v: the base of the page where the walk ends, plus the offset of v in that page. */
  function Phys(tables: Tables, own: Owners, root: nat, v: nat): Option<nat>
    requires Sound(tables, own) && root in own
  {
    var t := Walk(tables, own, root, v);
    if t.Page? then Some(t.addr + v % Align(t)) else None
  }

  /** Equal slots at a level are equal indices at it and above. */
  lemma {:induction false} SlotsAbove(low: Level, high: Level, v: nat, w: nat)
    requires Rank(high) <= Rank(low) && Slot(low, v) == Slot(low, w)
    ensures Slot(high, v) == Slot(high, w)
    decreases Rank(low)
  {
    if Rank(high) < Rank(low) {
      SlotsAbove(Above(low), high, v, w);
    }
  }

  /** The walk ends at the same entry for all addresses of the slot of that entry. */
  lemma {:induction false} SlotWalk(tables: Tables, own: Owners, f: nat, v: nat, w: nat)
    requires Sound(tables, own) && f in own && Walk(tables, own, f, v).Page?
    requires Slot(Walk(tables, own, f, v).level, v) == Slot(Walk(tables, own, f, v).level, w)
    ensures Walk(tables, own, f, w) == Walk(tables, own, f, v)
    decreases 4 - Rank(own[f].level), v
  {
    SlotsAbove(Walk(tables, own, f, v).level, own[f].level, v, w);
    assert TableOk(tables, own, f);
    var e := tables[f][Idx(own[f].level, v)];
    assert EntryOk(e, own, own[f], Idx(own[f].level, v));
    if e.Table? {
      assert TableOk(tables, own, e.addr);
      SlotWalk(tables, own, e.addr, v, w);
    }
  }

  lemma PdptQuotient(v: nat)
    ensures Slot(PDPT, v) == v / 0x4000_0000 % 0x4_0000
  {
    SlotIsShift(v);
    var q, r := v / 0x4000_0000, v % 0x4000_0000;
    var h, l := q / 0x4_0000, q % 0x4_0000;
    Bits.DivModUnique(v, 0x1_0000_0000_0000, h, l * 0x4000_0000 + r);
    Bits.DivModUnique(l * 0x4000_0000 + r, 0x4000_0000, l, r);
  }

  lemma PdQuotient(v: nat)
    ensures Slot(PD, v) == v / 0x20_0000 % 0x800_0000
  {
    SlotIsShift(v);
    var q, r := v / 0x20_0000, v % 0x20_0000;
    var h, l := q / 0x800_0000, q % 0x800_0000;
    Bits.DivModUnique(v, 0x1_0000_0000_0000, h, l * 0x20_0000 + r);
    Bits.DivModUnique(l * 0x20_0000 + r, 0x20_0000, l, r);
  }

  lemma PtQuotient(v: nat)
    ensures Slot(PT, v) == v / 0x1000 % 0x10_0000_0000
  {
    SlotIsShift(v);
    var q, r := v / 0x1000, v % 0x1000;
    var h, l := q / 0x10_0000_0000, q % 0x10_0000_0000;
    Bits.DivModUnique(v, 0x1_0000_0000_0000, h, l * 0x1000 + r);
    Bits.DivModUnique(l * 0x1000 + r, 0x1000, l, r);
  }

  /** All addresses of one page have the same slot. */
  lemma PageSlot(t: Target, v: nat, w: nat)
    requires t.Page? && (t.level.PDPT? || t.level.PD? || t.level.PT?) && v / Align(t) == w / Align(t)
    ensures Slot(t.level, v) == Slot(t.level, w)
  {
    match t.level {
      case PDPT => PdptQuotient(v); PdptQuotient(w);
      case PD => PdQuotient(v); PdQuotient(w);
      case PT => PtQuotient(v); PtQuotient(w);
    }
  }

  /** The physical addresses of one page are as far apart as the virtual ones. */
  lemma PhysInPage(tables: Tables, own: Owners, root: nat, v: nat, w: nat)
    requires Sound(tables, own) && root in own && Walk(tables, own, root, v).Page?
    requires v / Align(Walk(tables, own, root, v)) == w / Align(Walk(tables, own, root, v))
    ensures Walk(tables, own, root, w) == Walk(tables, own, root, v)
    ensures Phys(tables, own, root, w).value - Phys(tables, own, root, v).value == w - v
  {
    WalkPage(tables, own, root, v);
    PageSlot(Walk(tables, own, root, v), v, w);
    SlotWalk(tables, own, root, v, w);
  }

  lemma {:induction false} WalkPage(tables: Tables, own: Owners, f: nat, v: nat)
    requires Sound(tables, own) && f in own && Walk(tables, own, f, v).Page?
    ensures var t := Walk(tables, own, f, v); t.level.PDPT? || t.level.PD? || t.level.PT?
    decreases 4 - Rank(own[f].level), v
  {
    assert TableOk(tables, own, f);
    var e := tables[f][Idx(own[f].level, v)];
    assert EntryOk(e, own, own[f], Idx(own[f].level, v));
    if e.Table? {
      assert TableOk(tables, own, e.addr);
      WalkPage(tables, own, e.addr, v);
    }
  }

  lemma PageStart(v: nat, m: nat)
    requires m > 0
    ensures v - v % m >= 0 && (v - v % m) / m == v / m && (v - v % m) % m == 0
  {
    Bits.DivModUnique(v - v % m, m, v / m, 0);
  }

  /**
   * What is returned for v is the physical address of the start of its page. It is the physical address of v exactly
   * if nothing is mapped there or v is a multiple of the size of the page.
   */
  lemma TransDropsOffset(tables: Tables, own: Owners, root: nat, v: nat)
    requires Sound(tables, own) && root in own
    ensures var t := Walk(tables, own, root, v);
            && (t.Page? ==> Trans(tables, own, root, v) == Phys(tables, own, root, v - v % Align(t)))
            && (Trans(tables, own, root, v) == Phys(tables, own, root, v) <==> (t.Page? ==> v % Align(t) == 0))
  {
    var t := Walk(tables, own, root, v);
    if t.Page? {
      PageStart(v, Align(t));
      PhysInPage(tables, own, root, v, v - v % Align(t));
    }
  }

  lemma {:induction false} TableAtOwned(tables: Tables, own: Owners, root: nat, level: Level, v: nat)
    requires Sound(tables, own) && !level.CR3? && TableAt(tables, own, root, level, v).Some?
    ensures TableAt(tables, own, root, level, v).value in own
    ensures own[TableAt(tables, own, root, level, v).value] == PosAt(root, level, v)
    decreases Rank(level)
  {
    if !level.PML4? {
      TableAtOwned(tables, own, root, Above(level), v);
      var f := TableAt(tables, own, root, Above(level), v).value;
      assert TableOk(tables, own, f);
      assert EntryOk(tables[f][Idx(Above(level), v)], own, own[f], Idx(Above(level), v));
      ChildOnWalk(root, Above(level), v);
    }
  }

  lemma {:induction false} WalkFrom(tables: Tables, own: Owners, root: nat, level: Level, v: nat)
    requires Sound(tables, own) && !level.CR3? && TableAt(tables, own, root, level, v).Some?
    ensures root in own && TableAt(tables, own, root, level, v).value in own
    ensures Walk(tables, own, root, v) == Walk(tables, own, TableAt(tables, own, root, level, v).value, v)
    decreases Rank(level)
  {
    TableAtOwned(tables, own, root, level, v);
    if !level.PML4? {
      TableAtOwned(tables, own, root, Above(level), v);
      WalkFrom(tables, own, root, Above(level), v);
    }
  }

  /** Walks that need the same place reach the same table, through whatever root. */
  lemma {:induction false} SameTable(tables: Tables, own: Owners, roots: set<nat>, r0: nat, v0: nat, r: nat, v: nat,
                                     level: Level)
    requires Inv(tables, own, roots) && r0 in roots && r in roots && !level.CR3?
    requires PosAt(r, level, v) == PosAt(r0, level, v0)
    ensures TableAt(tables, own, r, level, v) == TableAt(tables, own, r0, level, v0)
    decreases Rank(level)
  {
    if level.PDPT? {
      SlotIsShift(v);
      SlotIsShift(v0);
      assert Idx(PML4, v) == Idx(PML4, v0);
      if IsKernel(v) {
        assert tables[r][Idx(PML4, v)] == tables[r0][Idx(PML4, v0)];
      }
    } else if !level.PML4? {
      SameUpper(Above(level), v0, v);
      SameTable(tables, own, roots, r0, v0, r, v, Above(level));
    }
  }

  lemma KernelEntryIsTable(tables: Tables, own: Owners, roots: set<nat>, root: nat, v: nat)
    requires Inv(tables, own, roots) && root in roots && IsKernel(v)
    ensures root in own && TableOk(tables, own, root) && tables[root][Idx(PML4, v)].Table?
  {
    SlotIsShift(v);
    assert TableOk(tables, own, root);
    assert tables[root][Idx(PML4, v)] == tables[root][Idx(PML4, v)];
  }

  // ---------------------------------------------------------------- one write

  /** A zero-filled frame that is not a table yet. */
  predicate Fresh(tables: Tables, own: Owners, a: nat) {
    a !in own && Blank(tables, a)
  }

  predicate Blank(tables: Tables, a: nat) {
    a in tables && |tables[a]| == 512 && forall i | 0 <= i < 512 :: tables[a][i] == Nothing
  }

  function Put(tables: Tables, f: nat, i: nat, e: Target): Tables
    requires f in tables && i < |tables[f]|
  {
    tables[f := tables[f][i := e]]
  }

  lemma AdoptInv(tables: Tables, own: Owners, roots: set<nat>, a: nat, pos: Pos)
    requires Inv(tables, own, roots) && Fresh(tables, own, a) && !pos.level.CR3? && !pos.level.PML4?
    ensures Inv(tables, own[a := pos], roots)
  {
    var own' := own[a := pos];
    forall f | f in own'
      ensures TableOk(tables, own', f)
    {
      if f != a {
        assert TableOk(tables, own, f);
        forall i | 0 <= i < 512
          ensures EntryOk(tables[f][i], own', own[f], i)
        {
          assert EntryOk(tables[f][i], own, own[f], i);
        }
      }
    }
  }

  /** A walk stays as it was if its tables and their places do. */
  lemma {:induction false} WalkFrame(t0: Tables, o0: Owners, t1: Tables, o1: Owners, f: nat, v: nat)
    requires Sound(t0, o0) && Sound(t1, o1) && f in o0
    requires forall g | g in o0 :: g in o1 && o1[g] == o0[g] && g in t1 && g in t0 && t1[g] == t0[g]
    ensures Walk(t1, o1, f, v) == Walk(t0, o0, f, v)
    decreases 4 - Rank(o0[f].level)
  {
    assert TableOk(t0, o0, f);
    var e := t0[f][Idx(o0[f].level, v)];
    assert EntryOk(e, o0, o0[f], Idx(o0[f].level, v));
    if e.Table? {
      WalkFrame(t0, o0, t1, o1, e.addr, v);
    }
  }

  lemma {:induction false} AdoptTableAt(tables: Tables, own: Owners, a: nat, pos: Pos, root: nat, level: Level, v: nat)
    requires Sound(tables, own) && a !in own && Sound(tables, own[a := pos])
    requires !level.CR3? && TableAt(tables, own, root, level, v).Some?
    ensures TableAt(tables, own[a := pos], root, level, v) == TableAt(tables, own, root, level, v)
    decreases Rank(level)
  {
    if !level.PML4? {
      AdoptTableAt(tables, own, a, pos, root, Above(level), v);
      TableAtOwned(tables, own, root, Above(level), v);
    }
  }

  lemma PutInv(tables: Tables, own: Owners, roots: set<nat>, f: nat, i: nat, e: Target)
    requires Inv(tables, own, roots) && f in own && i < 512 && EntryOk(e, own, own[f], i)
    requires own[f].level.PML4? ==> i < 256
    ensures TableOk(tables, own, f) && Inv(Put(tables, f, i, e), own, roots)
  {
    assert TableOk(tables, own, f);
    var tables' := Put(tables, f, i, e);
    forall g | g in own
      ensures TableOk(tables', own, g)
    {
      assert TableOk(tables, own, g);
      forall k | 0 <= k < 512
        ensures EntryOk(tables'[g][k], own, own[g], k)
      {
        assert EntryOk(tables[g][k], own, own[g], k);
      }
    }
    assert Shared(tables', roots) by {
      forall r, s, k | r in roots && s in roots && 256 <= k < 512
        ensures tables'[r][k] == tables'[s][k] && tables'[r][k].Table?
      {
        assert tables[r][k] == tables[s][k] && tables[r][k].Table?;
      }
    }
  }

  /** A walk that does not use the written entry ends as before. */
  lemma {:induction false} PutWalkElsewhere(tables: Tables, own: Owners, f: nat, i: nat, e: Target, g: nat, r: nat,
                                            v: nat)
    requires Sound(tables, own) && f in own && TableOk(tables, own, f) && i < 512 && Sound(Put(tables, f, i, e), own)
    requires g in own && own[g] == PosAt(r, own[g].level, v)
    requires own[f] != PosAt(r, own[f].level, v) || i != Idx(own[f].level, v)
    ensures Walk(Put(tables, f, i, e), own, g, v) == Walk(tables, own, g, v)
    decreases 4 - Rank(own[g].level)
  {
    assert TableOk(tables, own, g);
    var k := Idx(own[g].level, v);
    assert EntryOk(tables[g][k], own, own[g], k);
    if tables[g][k].Table? {
      ChildOnWalk(r, own[g].level, v);
      PutWalkElsewhere(tables, own, f, i, e, tables[g][k].addr, r, v);
    }
  }

  /** The tables above the written one, and that one itself, are still on the same walks. */
  lemma {:induction false} PutTableAt(tables: Tables, own: Owners, f: nat, i: nat, e: Target, root: nat, level: Level,
                                      v: nat)
    requires Sound(tables, own) && f in own && TableOk(tables, own, f) && i < 512 && Sound(Put(tables, f, i, e), own)
    requires !level.CR3? && Rank(level) <= Rank(own[f].level)
    ensures TableAt(Put(tables, f, i, e), own, root, level, v) == TableAt(tables, own, root, level, v)
    decreases Rank(level)
  {
    if !level.PML4? {
      PutTableAt(tables, own, f, i, e, root, Above(level), v);
    }
  }

  /** What an entry answers if no further table is below it. */
  function Answer(e: Target): Option<nat> {
    if e.Page? then Some(e.addr) else None
  }

  /**
   * What one write does: the addresses that use the entry get its answer, through every root; all others stay as they
   * were.
   */
  lemma PutTrans(tables: Tables, own: Owners, roots: set<nat>, r0: nat, v0: nat, level: Level, f: nat, e: Target,
                 r: nat, v: nat)
    requires Inv(tables, own, roots) && r0 in roots && r in roots && !level.CR3? && (level.PML4? ==> !IsKernel(v0))
    requires TableAt(tables, own, r0, level, v0) == Some(f) && f in own && TableOk(tables, own, f)
    requires Inv(Put(tables, f, Idx(level, v0), e), own, roots)
    requires e.Table? ==> e.addr in own && own[e.addr].level != level && Blank(tables, e.addr)
    ensures Trans(Put(tables, f, Idx(level, v0), e), own, r, v) ==
            if Same(level, r0, v0, r, v) then Answer(e) else Trans(tables, own, r, v)
  {
    var i := Idx(level, v0);
    var tables' := Put(tables, f, i, e);
    TableAtOwned(tables, own, r0, level, v0);
    SameIsPlace(level, r0, v0, r, v);
    if Same(level, r0, v0, r, v) {
      SameTable(tables, own, roots, r0, v0, r, v, level);
      PutTableAt(tables, own, f, i, e, r, level, v);
      WalkFrom(tables', own, r, level, v);
      assert tables'[f][i] == e;
    } else {
      PutWalkElsewhere(tables, own, f, i, e, r, r, v);
    }
  }

  // ---------------------------------------------------------------- addresses of a slot

  /** The address that uses index k of the table below the entry of v0. */
  function AddrBelow(level: Level, v0: nat, k: nat): nat
    requires !level.CR3? && !level.PT?
  {
    (Slot(level, v0) * 512 + k) * (if level.PML4? then 0x4000_0000 else if level.PDPT? then 0x20_0000 else 0x1000)
  }

  lemma PdptSlotOf(s: nat, v: nat)
    requires s < 0x4_0000 && v == s * 0x4000_0000
    ensures v % 0x1_0000_0000_0000 / 0x4000_0000 == s
  {
    Bits.DivModUnique(v, 0x1_0000_0000_0000, 0, v);
    Bits.DivModUnique(v, 0x4000_0000, s, 0);
  }

  lemma PdSlotOf(s: nat, v: nat)
    requires s < 0x800_0000 && v == s * 0x20_0000
    ensures v % 0x1_0000_0000_0000 / 0x20_0000 == s
  {
    Bits.DivModUnique(v, 0x1_0000_0000_0000, 0, v);
    Bits.DivModUnique(v, 0x20_0000, s, 0);
  }

  lemma PtSlotOf(s: nat, v: nat)
    requires s < 0x10_0000_0000 && v == s * 0x1000
    ensures v % 0x1_0000_0000_0000 / 0x1000 == s
  {
    Bits.DivModUnique(v, 0x1_0000_0000_0000, 0, v);
    Bits.DivModUnique(v, 0x1000, s, 0);
  }

  lemma SlotBounds(v: nat)
    ensures Slot(PML4, v) < 0x200 && Slot(PDPT, v) < 0x4_0000 && Slot(PD, v) < 0x800_0000
  {
    SlotIsShift(v);
  }

  lemma SlotIsBelow(level: Level, v0: nat, k: nat, v: nat)
    requires !level.CR3? && !level.PT? && k < 512 && v == AddrBelow(level, v0, k)
    ensures Slot(Below(level), v) == Slot(level, v0) * 512 + k
  {
    SlotBounds(v0);
    SlotIsShift(v);
    var s := Slot(level, v0) * 512 + k;
    if level.PML4? {
      PdptSlotOf(s, v);
    } else if level.PDPT? {
      PdSlotOf(s, v);
    } else {
      PtSlotOf(s, v);
    }
  }

  // ---------------------------------------------------------------- map, as an update of the translation

  /** A larger page on the walk for v0 is cut up to make room, and v was in that page. */
  predicate SplitOff(tables: Tables, own: Owners, r0: nat, v0: nat, level: Level, r: nat, v: nat)
    requires Sound(tables, own) && r0 in own
  {
    var t := Walk(tables, own, r0, v0);
    t.Page? && Rank(t.level) < Rank(level) && Same(t.level, r0, v0, r, v)
  }

  /**
   * The translation after `map` of the page of v0: its addresses get the answer of the final entry (if it was
   * written), the rest of a larger page that was in the way is lost, and everything else stays.
   */
  function Expected(tables: Tables, own: Owners, r0: nat, v0: nat, level: Level, final: Option<Target>, r: nat,
                    v: nat): Option<nat>
    requires Sound(tables, own) && r0 in own && r in own
  {
    if final.Some? && Same(level, r0, v0, r, v) then Answer(final.value)
    else if SplitOff(tables, own, r0, v0, level, r, v) then None
    else Trans(tables, own, r, v)
  }

  /** The entry of `level` on the walk for v0 is the last one, and is not a table. */
  predicate EndsAt(tables: Tables, own: Owners, r0: nat, v0: nat, level: Level)
    requires Sound(tables, own)
  {
    && !level.CR3? && TableAt(tables, own, r0, level, v0).Some?
    && var g := TableAt(tables, own, r0, level, v0).value;
    g in own && own[g].level == level && !tables[g][Idx(level, v0)].Table?
  }

  /** After the walk went down to table f of `level`; `cut` is the level at which it first had to make a table. */
  ghost predicate Descended(t0: Tables, o0: Owners, t1: Tables, o1: Owners, roots: set<nat>,
                            r0: nat, v0: nat, level: Level, f: nat, cut: Option<Level>) {
    && Inv(t0, o0, roots) && Inv(t1, o1, roots) && r0 in roots && !level.CR3?
    && TableAt(t1, o1, r0, level, v0) == Some(f)
    && (cut.None? ==> t1 == t0 && o1 == o0)
    && (cut.Some? ==> Rank(cut.value) < Rank(level) && Blank(t1, f) && EndsAt(t0, o0, r0, v0, cut.value)
                      && LostBelow(t0, o0, t1, o1, roots, r0, v0, cut.value))
  }

  ghost predicate LostBelow(t0: Tables, o0: Owners, t1: Tables, o1: Owners, roots: set<nat>, r0: nat, v0: nat,
                            cut: Level)
    requires Inv(t0, o0, roots) && Inv(t1, o1, roots)
  {
    forall r, v: nat | r in roots ::
      Trans(t1, o1, r, v) == if Same(cut, r0, v0, r, v) then None else Trans(t0, o0, r, v)
  }

  lemma StepDown(t0: Tables, o0: Owners, t1: Tables, o1: Owners, roots: set<nat>, r0: nat, v0: nat, level: Level,
                 f: nat, cut: Option<Level>)
    requires Descended(t0, o0, t1, o1, roots, r0, v0, level, f, cut)
    requires !level.PT? && f in o1 && TableOk(t1, o1, f) && t1[f][Idx(level, v0)].Table?
    ensures Descended(t0, o0, t1, o1, roots, r0, v0, Below(level), t1[f][Idx(level, v0)].addr, cut)
  {
    TableAtOwned(t1, o1, r0, level, v0);
  }

  lemma StepSplit(t0: Tables, o0: Owners, t1: Tables, o1: Owners, roots: set<nat>, r0: nat, v0: nat, level: Level,
                  f: nat, cut: Option<Level>, a: nat)
    requires Descended(t0, o0, t1, o1, roots, r0, v0, level, f, cut)
    requires !level.PT? && f in o1 && TableOk(t1, o1, f) && !t1[f][Idx(level, v0)].Table? && Fresh(t1, o1, a)
    ensures o1[f].level == level
    ensures Descended(t0, o0, Put(t1, f, Idx(level, v0), Table(Below(level), a)), o1[a := Child(o1[f], Idx(level, v0))],
                      roots, r0, v0, Below(level), a, if cut.Some? then cut else Some(level))
  {
    TableAtOwned(t1, o1, r0, level, v0);
    var i := Idx(level, v0);
    var o2 := o1[a := Child(o1[f], i)];
    AdoptInv(t1, o1, roots, a, Child(o1[f], i));
    AdoptTableAt(t1, o1, a, Child(o1[f], i), r0, level, v0);
    var e := Table(Below(level), a);
    if IsKernel(v0) {
      KernelEntryIsTable(t1, o1, roots, r0, v0);
    }
    SlotIsShift(v0);
    PutInv(t1, o2, roots, f, i, e);
    var t2 := Put(t1, f, i, e);
    PutTableAt(t1, o2, f, i, e, r0, level, v0);
    assert t2[a] == t1[a];
    SplitTrans(t0, o0, t1, o1, roots, r0, v0, level, f, cut, a, o2, t2);
  }

  lemma SplitTrans(t0: Tables, o0: Owners, t1: Tables, o1: Owners, roots: set<nat>, r0: nat, v0: nat, level: Level,
                   f: nat, cut: Option<Level>, a: nat, o2: Owners, t2: Tables)
    requires Descended(t0, o0, t1, o1, roots, r0, v0, level, f, cut)
    requires !level.PT? && f in o1 && TableOk(t1, o1, f) && !t1[f][Idx(level, v0)].Table? && Fresh(t1, o1, a)
    requires o1[f].level == level && (level.PML4? ==> !IsKernel(v0))
    requires o2 == o1[a := Child(o1[f], Idx(level, v0))] && t2 == Put(t1, f, Idx(level, v0), Table(Below(level), a))
    requires Inv(t1, o2, roots) && Inv(t2, o2, roots) && TableAt(t1, o2, r0, level, v0) == Some(f)
    ensures LostBelow(t0, o0, t2, o2, roots, r0, v0, if cut.Some? then cut.value else level)
  {
    forall r, v: nat | r in roots
      ensures Trans(t2, o2, r, v) == if Same(if cut.Some? then cut.value else level, r0, v0, r, v) then None
              else Trans(t0, o0, r, v)
    {
      assert TableOk(t1, o2, f);
      PutTrans(t1, o2, roots, r0, v0, level, f, Table(Below(level), a), r, v);
      WalkFrame(t1, o1, t1, o2, r, v);
      if cut.Some? && Same(level, r0, v0, r, v) {
        SameAbove(level, cut.value, r0, v0, r, v);
      }
    }
  }

  /** An address that shares the last entry of the walk for v0 gets the same answer. */
  lemma SameAnswer(tables: Tables, own: Owners, roots: set<nat>, r0: nat, v0: nat, level: Level, r: nat, v: nat)
    requires Inv(tables, own, roots) && r0 in roots && r in roots
    requires EndsAt(tables, own, r0, v0, level) && Same(level, r0, v0, r, v)
    ensures Walk(tables, own, r, v) == Walk(tables, own, r0, v0)
    ensures Walk(tables, own, r0, v0).Page? ==> Walk(tables, own, r0, v0).level == level
  {
    var g := TableAt(tables, own, r0, level, v0).value;
    WalkFrom(tables, own, r0, level, v0);
    assert TableOk(tables, own, g) && EntryOk(tables[g][Idx(level, v0)], own, own[g], Idx(level, v0));
    if IsKernel(v0) {
      KernelEntryIsTable(tables, own, roots, r0, v0);
    }
    SameIsPlace(level, r0, v0, r, v);
    SameTable(tables, own, roots, r0, v0, r, v, level);
    WalkFrom(tables, own, r, level, v);
  }

  /** The walk down is itself the expected update, with nothing written at the end. */
  lemma DescendedTrans(t0: Tables, o0: Owners, t1: Tables, o1: Owners, roots: set<nat>, r0: nat, v0: nat, level: Level,
                       f: nat, cut: Option<Level>, r: nat, v: nat)
    requires Descended(t0, o0, t1, o1, roots, r0, v0, level, f, cut) && r in roots
    ensures Trans(t1, o1, r, v) == Expected(t0, o0, r0, v0, level, None, r, v)
  {
    if cut.None? {
      WalkFrom(t0, o0, r0, level, v0);
      TableAtOwned(t0, o0, r0, level, v0);
    } else {
      SameAnswer(t0, o0, roots, r0, v0, cut.value, r0, v0);
      if Same(cut.value, r0, v0, r, v) {
        SameAnswer(t0, o0, roots, r0, v0, cut.value, r, v);
      }
    }
  }

  /** `map` refines the update of the translation, for all roots and all addresses. */
  lemma MapRefines(t0: Tables, o0: Owners, t1: Tables, o1: Owners, roots: set<nat>, r0: nat, v0: nat, level: Level,
                   f: nat, cut: Option<Level>, e: Target)
    requires Descended(t0, o0, t1, o1, roots, r0, v0, level, f, cut)
    requires !level.PML4? && !e.Table? && f in o1 && TableOk(t1, o1, f) && EntryOk(e, o1, o1[f], Idx(level, v0))
    ensures Inv(Put(t1, f, Idx(level, v0), e), o1, roots)
    ensures forall r, v: nat | r in roots ::
              Trans(Put(t1, f, Idx(level, v0), e), o1, r, v) == Expected(t0, o0, r0, v0, level, Some(e), r, v)
  {
    TableAtOwned(t1, o1, r0, level, v0);
    PutInv(t1, o1, roots, f, Idx(level, v0), e);
    forall r, v: nat | r in roots
      ensures Trans(Put(t1, f, Idx(level, v0), e), o1, r, v) == Expected(t0, o0, r0, v0, level, Some(e), r, v)
    {
      PutTrans(t1, o1, roots, r0, v0, level, f, e, r, v);
      DescendedTrans(t0, o0, t1, o1, roots, r0, v0, level, f, cut, r, v);
    }
  }

  /** The same, when the last write may have been refused. */
  lemma LeafRefines(t0: Tables, o0: Owners, t1: Tables, o1: Owners, roots: set<nat>, r0: nat, v0: nat, level: Level,
                    f: nat, cut: Option<Level>, final: Option<Target>, e: Target)
    requires Descended(t0, o0, t1, o1, roots, r0, v0, level, f, cut)
    requires !level.PML4? && f in o1 && TableOk(t1, o1, f)
    requires final.None? ==> e == t1[f][Idx(level, v0)]
    requires final.Some? ==> e == final.value && !e.Table? && EntryOk(e, o1, o1[f], Idx(level, v0))
    ensures Inv(Put(t1, f, Idx(level, v0), e), o1, roots)
    ensures forall r, v: nat | r in roots ::
              Trans(Put(t1, f, Idx(level, v0), e), o1, r, v) == Expected(t0, o0, r0, v0, level, final, r, v)
  {
    if final.Some? {
      MapRefines(t0, o0, t1, o1, roots, r0, v0, level, f, cut, e);
    } else {
      assert t1[f][Idx(level, v0) := e] == t1[f];
      assert Put(t1, f, Idx(level, v0), e) == t1;
      forall r, v: nat | r in roots
        ensures Trans(t1, o1, r, v) == Expected(t0, o0, r0, v0, level, None, r, v)
      {
        DescendedTrans(t0, o0, t1, o1, roots, r0, v0, level, f, cut, r, v);
      }
    }
  }

  /** All memory maps translate the kernel half alike. */
  lemma KernelAgrees(tables: Tables, own: Owners, roots: set<nat>, r: nat, s: nat, v: nat)
    requires Inv(tables, own, roots) && r in roots && s in roots && IsKernel(v)
    ensures Trans(tables, own, r, v) == Trans(tables, own, s, v)
  {
    KernelEntryIsTable(tables, own, roots, r, v);
    KernelEntryIsTable(tables, own, roots, s, v);
    SlotIsShift(v);
    assert tables[r][Idx(PML4, v)] == tables[s][Idx(PML4, v)];
  }

  /** A kernel page mapped through one map is seen through every map. */
  lemma KernelMapSeen(tables: Tables, own: Owners, roots: set<nat>, r0: nat, v0: nat, level: Level, e: Target, r: nat,
                      v: nat)
    requires Inv(tables, own, roots) && r0 in roots && r in roots && !level.CR3?
    requires IsKernel(v0) && Slot(level, v) == Slot(level, v0)
    ensures Expected(tables, own, r0, v0, level, Some(e), r, v) == Answer(e)
  {
    SlotsAbove(level, PML4, v, v0);
  }

  /** A user page mapped through one map is seen through no other. */
  lemma UserMapPrivate(tables: Tables, own: Owners, roots: set<nat>, r0: nat, v0: nat, level: Level,
                       final: Option<Target>, r: nat, v: nat)
    requires Inv(tables, own, roots) && r0 in roots && r in roots && r != r0 && !IsKernel(v0)
    ensures Expected(tables, own, r0, v0, level, final, r, v) == Trans(tables, own, r, v)
  {
  }

  // ---------------------------------------------------------------- new and drop

  /** The tables and places with a new root that takes its upper half from another root. */
  function WithRoot(tables: Tables, root: nat, a: nat): Tables
    requires root in tables && a in tables && |tables[root]| == 512 && |tables[a]| == 512
  {
    tables[a := tables[a][..256] + tables[root][256..]]
  }

  lemma NewInv(tables: Tables, own: Owners, roots: set<nat>, root: nat, a: nat)
    requires Inv(tables, own, roots) && root in roots && Fresh(tables, own, a) && TableOk(tables, own, root)
    ensures Inv(WithRoot(tables, root, a), own[a := Pos(User(a), PML4, 0)], roots + {a})
  {
    var t1, o1 := WithRoot(tables, root, a), own[a := Pos(User(a), PML4, 0)];
    forall f | f in o1
      ensures TableOk(t1, o1, f)
    {
      forall i | 0 <= i < 512
        ensures f in t1 && |t1[f]| == 512 && EntryOk(t1[f][i], o1, o1[f], i)
      {
        if f != a {
          assert TableOk(tables, own, f) && EntryOk(tables[f][i], own, own[f], i);
        } else if 256 <= i {
          assert EntryOk(tables[root][i], own, own[root], i);
        }
      }
      assert f in t1 && |t1[f]| == 512 by {
        if f != a {
          assert TableOk(tables, own, f);
        }
      }
      assert !o1[f].level.CR3? by {
        if f != a {
          assert TableOk(tables, own, f);
        }
      }
    }
    NewShared(tables, own, roots, root, a);
  }

  lemma NewShared(tables: Tables, own: Owners, roots: set<nat>, root: nat, a: nat)
    requires Inv(tables, own, roots) && root in roots && Fresh(tables, own, a) && TableOk(tables, own, root)
    ensures forall r | r in roots + {a} :: r in WithRoot(tables, root, a) && |WithRoot(tables, root, a)[r]| == 512
    ensures Shared(WithRoot(tables, root, a), roots + {a})
  {
    var t1 := WithRoot(tables, root, a);
    forall r, i | r in roots + {a} && 256 <= i < 512
      ensures r in t1 && |t1[r]| == 512 && t1[r][i] == tables[root][i] && tables[root][i].Table?
    {
      if r != a {
        assert TableOk(tables, own, r);
        assert tables[r][i] == tables[root][i] && tables[r][i].Table?;
      } else {
        assert tables[root][i] == tables[root][i] && tables[root][i].Table?;
      }
    }
    forall r | r in roots + {a}
      ensures r in t1 && |t1[r]| == 512
    {
      if r != a {
        assert TableOk(tables, own, r);
      }
    }
    forall r, s, i | r in roots + {a} && s in roots + {a} && 256 <= i < 512
      ensures t1[r][i] == t1[s][i] && t1[r][i].Table?
    {
      assert t1[r][i] == tables[root][i] && t1[s][i] == tables[root][i];
    }
  }

  /** A new map translates nothing in the lower half and what all maps translate in the upper half. */
  lemma NewTrans(tables: Tables, own: Owners, roots: set<nat>, root: nat, a: nat, r: nat, v: nat)
    requires Inv(tables, own, roots) && root in roots && Fresh(tables, own, a) && TableOk(tables, own, root) &&
             r in roots + {a}
    requires Inv(WithRoot(tables, root, a), own[a := Pos(User(a), PML4, 0)], roots + {a})
    ensures Trans(WithRoot(tables, root, a), own[a := Pos(User(a), PML4, 0)], r, v) ==
            if r != a then Trans(tables, own, r, v) else if IsKernel(v) then Trans(tables, own, root, v) else None
  {
    var t1, o1 := WithRoot(tables, root, a), own[a := Pos(User(a), PML4, 0)];
    assert forall g | g in own :: TableOk(tables, own, g);
    if r != a {
      WalkFrame(tables, own, t1, o1, r, v);
    } else if IsKernel(v) {
      KernelAgrees(t1, o1, roots + {a}, a, root, v);
      WalkFrame(tables, own, t1, o1, root, v);
    } else {
      SlotIsShift(v);
      assert t1[a][Idx(PML4, v)] == tables[a][Idx(PML4, v)];
    }
  }

  /** The translations after `new`, for all maps and addresses. */
  ghost predicate NewTranslations(t0: Tables, o0: Owners, t1: Tables, o1: Owners, roots: set<nat>, root: nat, a: nat)
    requires Sound(t0, o0) && Sound(t1, o1) && root in o0 && (forall r | r in roots :: r in o0 && r in o1) && a in o1
  {
    forall r, v: nat | r in roots + {a} ::
      Trans(t1, o1, r, v) ==
      if r != a then Trans(t0, o0, r, v) else if IsKernel(v) then Trans(t0, o0, root, v) else None
  }

  lemma NewRoot(tables: Tables, own: Owners, roots: set<nat>, root: nat, a: nat)
    requires Inv(tables, own, roots) && root in roots && Fresh(tables, own, a)
    ensures TableOk(tables, own, root)
    ensures Inv(WithRoot(tables, root, a), own[a := Pos(User(a), PML4, 0)], roots + {a})
    ensures NewTranslations(tables, own, WithRoot(tables, root, a), own[a := Pos(User(a), PML4, 0)], roots, root, a)
  {
    assert TableOk(tables, own, root);
    NewInv(tables, own, roots, root, a);
    var t1, o1 := WithRoot(tables, root, a), own[a := Pos(User(a), PML4, 0)];
    forall r, v: nat | r in roots + {a}
      ensures Trans(t1, o1, r, v) == if r != a then Trans(tables, own, r, v)
              else if IsKernel(v) then Trans(tables, own, root, v) else None
    {
      NewTrans(tables, own, roots, root, a, r, v);
    }
  }

  /** The places that remain when a memory map is dropped. */
  function Without(own: Owners, root: nat): Owners {
    map f | f in own && own[f].space != User(root) :: own[f]
  }

  lemma DropInv(tables: Tables, own: Owners, roots: set<nat>, root: nat)
    requires Inv(tables, own, roots) && root in roots
    ensures Inv(tables, Without(own, root), roots - {root})
    ensures forall r, v: nat | r in roots - {root} ::
              Trans(tables, Without(own, root), r, v) == Trans(tables, own, r, v)
  {
    var o1 := Without(own, root);
    forall f | f in o1
      ensures TableOk(tables, o1, f)
    {
      assert TableOk(tables, own, f);
      forall i | 0 <= i < 512
        ensures EntryOk(tables[f][i], o1, o1[f], i)
      {
        assert EntryOk(tables[f][i], own, own[f], i);
      }
    }
    forall r, v: nat | r in roots - {root}
      ensures Trans(tables, o1, r, v) == Trans(tables, own, r, v)
    {
      WalkFrame(tables, o1, tables, own, r, v);
    }
  }
}
