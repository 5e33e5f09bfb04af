/** The first memory map: the kernel image and the remapped physical memory. */
module PagingInit {
  import opened Options
  import Bits
  import opened MachineWord
  import opened Entry
  import opened PageTable
  import opened MemoryMaps
  import opened WalkWords

  const GIB: nat := 0x4000_0000
  const MIB2: nat := 0x20_0000
  const KERNEL_START: nat := 0xFFFF_FFFF_8000_0000
  const KERNEL_LIMIT: nat := 0xFFFF_FFFF_FF60_0000
  const REMAP_START: nat := 0xFFFF_8880_0000_0000
  const REMAP_LIMIT: nat := 0xFFFF_C880_0000_0000
  const PAGE_FLAGS: seq<Flag> := [Present, PageSize, Global, ReadWrite]

  function ImageV2P(v: nat): nat
    requires KERNEL_START <= v < KERNEL_LIMIT
  {
    v - KERNEL_START
  }

  function P2V(p: nat): nat {
    p + REMAP_START
  }

  /** The static tables, by physical address: the root, one table for each upper entry of it, and one for the image. */
  datatype Layout = Layout(pml4: nat, pdpts: seq<nat>, pd: nat)

  ghost predicate Apart(l: Layout) {
    && |l.pdpts| == 256 && l.pml4 != l.pd && l.pml4 !in l.pdpts && l.pd !in l.pdpts
    && forall j, k | 0 <= j < k < 256 :: l.pdpts[j] != l.pdpts[k]
  }

  ghost function Pdpts(l: Layout): Owners
    requires Apart(l)
  {
    map k | 0 <= k < 256 :: l.pdpts[k] := Pos(Kernel, PDPT, 256 + k)
  }

  /** Where the static tables belong. */
  ghost function Places(l: Layout): Owners
    requires Apart(l)
  {
    Pdpts(l)[l.pml4 := Pos(User(l.pml4), PML4, 0)][l.pd := Pos(Kernel, PD, 511 * 512 + 510)]
  }

  lemma PlacesAre(l: Layout)
    requires Apart(l)
    ensures l.pml4 in Places(l) && Places(l)[l.pml4] == Pos(User(l.pml4), PML4, 0)
    ensures l.pd in Places(l) && Places(l)[l.pd] == Pos(Kernel, PD, 511 * 512 + 510)
    ensures forall k | 0 <= k < 256 :: l.pdpts[k] in Places(l) && Places(l)[l.pdpts[k]] == Pos(Kernel, PDPT, 256 + k)
    ensures forall f | f in Places(l) :: f == l.pml4 || f == l.pd || f in l.pdpts
  {
  }

  /** The static tables are aligned, zero-filled and in physical memory. */
  ghost predicate Loaded(l: Layout, words: map<nat, seq<Word>>) {
    Apart(l) && forall f | f in Places(l) :: Allocated(words, map[], f)
  }

  ghost function Zeroed(words: map<nat, seq<Word>>): Tables {
    map f | f in words :: seq(|words[f]|, i => Nothing)
  }

  lemma ZeroedDecodes(l: Layout, words: map<nat, seq<Word>>)
    requires Loaded(l, words)
    ensures Decodes(words, Places(l), Zeroed(words))
  {
    PlacesAre(l);
    ZeroDecodes(PML4);
    ZeroDecodes(PDPT);
    ZeroDecodes(PD);
    forall f, i {:trigger words[f][i]} | f in words && 0 <= i < |words[f]|
      ensures DecodesEntry(words[f][i], Places(l), f, Zeroed(words)[f][i])
    {
      if f in Places(l) {
        assert Allocated(words, map[], f);
        assert words[f][i] == {};
      }
    }
  }

  // ---------------------------------------------------------------- what is built

  /** The last entry of the root that remaps physical memory. */
  function RemapEnd(managed: nat): int {
    Idx(PML4, LastRemapped(managed))
  }

  function LastRemapped(managed: nat): nat {
    if REMAP_LIMIT - 1 < REMAP_START + managed - 1 then REMAP_LIMIT - 1 else REMAP_START + managed - 1
  }

  function RootEntry(l: Layout, n: nat, i: nat): Target
    requires n <= |l.pdpts|
  {
    if 256 <= i < 256 + n then Table(PDPT, l.pdpts[i - 256]) else Nothing
  }

  function PdptEntry(l: Layout, last: int, k: nat, i: nat): Target {
    if k == 255 then if i == 510 then Table(PD, l.pd) else Nothing
    else if 273 <= 256 + k <= last then Page(PDPT, ((256 + k - 273) * 512 + i) * GIB)
    else Nothing
  }

  /** The one table of the image, after its first `j` pages. From page 512 on the entries are written over. */
  function PdAfter(j: nat, i: nat): Target {
    if i + 512 < j then Page(PD, (i + 512) * MIB2) else if i < j then Page(PD, i * MIB2) else Nothing
  }

  function PdEntry(image: nat, i: nat): Target {
    if i * MIB2 + GIB < image then Page(PD, i * MIB2 + GIB)
    else if i * MIB2 < image then Page(PD, i * MIB2)
    else Nothing
  }

  /** The tables after the first n entries of the upper half were set up. */
  ghost predicate Built(tables: Tables, l: Layout, last: int, image: nat, n: nat)
    requires Apart(l) && n <= 256
  {
    && Row(tables, l.pml4) && (forall i | 0 <= i < 512 :: tables[l.pml4][i] == RootEntry(l, n, i))
    && (forall k | 0 <= k < 256 :: BuiltPdpt(tables, l, last, n, k))
    && Row(tables, l.pd) &&
       (forall i | 0 <= i < 512 :: tables[l.pd][i] == if n == 256 then PdEntry(image, i) else Nothing)
  }

  ghost predicate BuiltPdpt(tables: Tables, l: Layout, last: int, n: nat, k: nat)
    requires k < |l.pdpts|
  {
    && Row(tables, l.pdpts[k])
    && forall i | 0 <= i < 512 :: tables[l.pdpts[k]][i] == if k < n then PdptEntry(l, last, k, i) else Nothing
  }

  predicate Row(tables: Tables, f: nat) {
    f in tables && |tables[f]| == 512
  }

  lemma ZeroedBuilt(l: Layout, words: map<nat, seq<Word>>, last: int, image: nat)
    requires Loaded(l, words)
    ensures Built(Zeroed(words), l, last, image, 0)
  {
    PlacesAre(l);
    forall f | f in Places(l)
      ensures Row(Zeroed(words), f)
    {
      assert Allocated(words, map[], f);
    }
  }

  /** Only the given rows differ. */
  ghost predicate OnlyRows(before: Tables, after: Tables, rows: set<nat>) {
    after.Keys == before.Keys && forall f | f in before && f !in rows :: after[f] == before[f]
  }

  /** The table of entry n of the upper half is as it should be. */
  ghost predicate PdptDone(tables: Tables, l: Layout, last: int, n: nat)
    requires n < |l.pdpts|
  {
    Row(tables, l.pdpts[n]) && forall i | 0 <= i < 512 :: tables[l.pdpts[n]][i] == PdptEntry(l, last, n, i)
  }

  ghost predicate PdDone(tables: Tables, l: Layout, image: nat) {
    Row(tables, l.pd) && forall i | 0 <= i < 512 :: tables[l.pd][i] == PdEntry(image, i)
  }

  lemma BuiltOneMore(t0: Tables, t1: Tables, l: Layout, last: int, image: nat, n: nat)
    requires Apart(l) && n < 256 && Built(t0, l, last, image, n)
    requires OnlyRows(t0, t1, if n == 255 then {l.pdpts[n], l.pd} else {l.pdpts[n]}) && PdptDone(t1, l, last, n)
    requires n == 255 ==> PdDone(t1, l, image)
    ensures Row(t1, l.pml4) && Built(Put(t1, l.pml4, 256 + n, Table(PDPT, l.pdpts[n])), l, last, image, n + 1)
  {
    var t2, m := Put(t1, l.pml4, 256 + n, Table(PDPT, l.pdpts[n])), n + 1;
    forall k | 0 <= k < 256
      ensures BuiltPdpt(t2, l, last, m, k)
    {
      assert BuiltPdpt(t0, l, last, n, k);
      assert l.pdpts[k] in l.pdpts;
      assert k != n ==> l.pdpts[k] != l.pdpts[n];
    }
  }

  // ---------------------------------------------------------------- the words

  /** An entry as `init` writes it: tables present and writable, pages global and of their large size as well. */
  predicate PlainWord(w: Word, t: Target) {
    match t
    case Nothing => w == {}
    case Table(_, a) => Value(w, 0, 64) == a + 3
    case Page(_, a) => Value(w, 0, 64) == a + 0x183
  }

  /** The tables are decoded, every entry of them is written in this way, and no other frame differs from before. */
  ghost predicate Drawn(w0: Memory, words: Memory, own: Owners, tables: Tables) {
    && Decodes(words, own, tables) && words.Keys == w0.Keys
    && (forall g | g in words && g !in own :: words[g] == w0[g])
    && forall f, i {:trigger words[f][i]} | f in words && f in own && 0 <= i < |words[f]| ::
         PlainWord(words[f][i], tables[f][i])
  }

  lemma DrawnMore(w0: Memory, words: Memory, words': Memory, own: Owners, tables: Tables, tables': Tables, f: nat,
                  i: nat)
    requires Drawn(w0, words, own, tables) && Decodes(words', own, tables') && OneWord(words, words', f, i)
    requires f in own && f in tables && i < |tables[f]| && PlainWord(words'[f][i], tables'[f][i])
    requires tables' == Put(tables, f, i, tables'[f][i])
    ensures Drawn(w0, words', own, tables')
  {
    forall g, j {:trigger words'[g][j]} | g in words' && g in own && 0 <= j < |words'[g]|
      ensures PlainWord(words'[g][j], tables'[g][j])
    {
      if g != f || j != i {
        assert PlainWord(words[g][j], tables[g][j]);
      }
    }
  }

  lemma DrawnFirst(l: Layout, words: Memory)
    requires Loaded(l, words)
    ensures Drawn(words, words, Places(l), Zeroed(words))
  {
    ZeroedDecodes(l, words);
    forall f, i {:trigger words[f][i]} | f in words && f in Places(l) && 0 <= i < |words[f]|
      ensures PlainWord(words[f][i], Zeroed(words)[f][i])
    {
      assert Allocated(words, map[], f);
    }
  }

  // ---------------------------------------------------------------- init

  lemma PageFlagsValid(level: Level, addr: nat)
    requires IsMiddle(level)
    ensures Allowed(level, PAGE_FLAGS) && KindOf(level, PAGE_FLAGS, addr) == Page(level, addr)
    ensures Unit(level, PAGE_FLAGS) == Align(Page(level, addr)) && FlagNumber(PAGE_FLAGS) == 0x183
  {
  }

  /** The image uses the last entry of the root; the remapped memory starts at entry 273. */
  lemma StartIndices()
    ensures Idx(PML4, KERNEL_START) == 511 && Idx(PDPT, KERNEL_START) == 510 && Idx(PML4, REMAP_START) == 273
  {
    ImageSlots(0);
    RemapSlots(0);
  }

  method SetPage(mm: MemoryManager, f: nat, level: Level, i: nat, addr: nat, ghost w0: Memory)
    requires Drawn(w0, mm.words, mm.own, mm.tables) && f in mm.own && mm.own[f].level == level && Row(mm.tables, f) &&
             i < 512
    requires IsMiddle(level) && Narrow(addr) && addr % Align(Page(level, addr)) == 0
    modifies mm`words, mm`tables
    ensures Drawn(w0, mm.words, mm.own, mm.tables) && mm.tables == Put(old(mm.tables), f, i, Page(level, addr))
  {
    PageFlagsValid(level, addr);
    ReinitRoundTrip(mm.words[f][i], level, addr, PAGE_FLAGS, Present);
    ghost var words, tables := mm.words, mm.tables;
    mm.WriteEntry(f, level, i, addr, PAGE_FLAGS, Page(level, addr));
    DrawnMore(w0, words, mm.words, mm.own, tables, mm.tables, f, i);
  }

  method SetTable(mm: MemoryManager, f: nat, level: Level, i: nat, a: nat, ghost w0: Memory)
    requires Drawn(w0, mm.words, mm.own, mm.tables) && f in mm.own && mm.own[f].level == level && Row(mm.tables, f) &&
             i < 512
    requires (level.PML4? || IsMiddle(level)) && Narrow(a) && a % 0x1000 == 0
    modifies mm`words, mm`tables
    ensures Drawn(w0, mm.words, mm.own, mm.tables) && mm.tables == Put(old(mm.tables), f, i, Table(Below(level), a))
  {
    TableFlagsValid(level, a);
    ReinitRoundTrip(mm.words[f][i], level, a, TABLE_FLAGS, Present);
    ghost var words, tables := mm.words, mm.tables;
    mm.WriteEntry(f, level, i, a, TABLE_FLAGS, Table(Below(level), a));
    DrawnMore(w0, words, mm.words, mm.own, tables, mm.tables, f, i);
  }

  /** 512 pages of 1 GiB each, from the given number of whole tables upwards. */
  method InitRemapPdpt(mm: MemoryManager, f: nat, remapIdx: nat, ghost w0: Memory)
    requires Drawn(w0, mm.words, mm.own, mm.tables) && f in mm.own && mm.own[f].level == PDPT && Row(mm.tables, f)
    requires remapIdx < 128
    modifies mm`words, mm`tables
    ensures Drawn(w0, mm.words, mm.own, mm.tables) && OnlyRows(old(mm.tables), mm.tables, {f}) && Row(mm.tables, f)
    ensures forall i | 0 <= i < 512 :: mm.tables[f][i] == Page(PDPT, (remapIdx * 512 + i) * GIB)
  {
    var remapStart := remapIdx * (GIB * 512);
    for i := 0 to 512
      invariant Drawn(w0, mm.words, mm.own, mm.tables) && OnlyRows(old(mm.tables), mm.tables, {f}) && Row(mm.tables, f)
      invariant forall k | 0 <= k < i :: mm.tables[f][k] == Page(PDPT, (remapIdx * 512 + k) * GIB)
    {
      SetPage(mm, f, PDPT, i, remapStart + i * GIB, w0);
    }
  }

  /** Setting page j of the image. */
  lemma PdSet(j: nat, i: nat)
    requires j < 1024 && i < 512
    ensures PdAfter(j + 1, i) == if i == j % 512 then Page(PD, j * MIB2) else PdAfter(j, i)
  {
    assert j % 512 == if j < 512 then j else j - 512;
  }

  lemma PdIndex(j: nat)
    requires KERNEL_START + j * MIB2 < KERNEL_LIMIT
    ensures j < 1024 && Idx(PD, KERNEL_START + j * MIB2) == j % 512
  {
    ImageSlots(j * MIB2);
    Bits.DivModUnique(j * MIB2, GIB, j / 512, j % 512 * MIB2);
  }

  lemma PdComplete(j: nat, image: nat)
    requires image <= j * MIB2 && (j == 0 || (j - 1) * MIB2 < image)
    ensures forall i | 0 <= i < 512 :: PdAfter(j, i) == PdEntry(image, i)
  {
  }

  ghost predicate PdSoFar(tables: Tables, pd: nat, j: nat) {
    Row(tables, pd) && forall i | 0 <= i < 512 :: tables[pd][i] == PdAfter(j, i)
  }

  method InitImagePage(mm: MemoryManager, pd: nat, v: nat, ghost j: nat, ghost w0: Memory)
    requires Drawn(w0, mm.words, mm.own, mm.tables) && pd in mm.own && mm.own[pd].level == PD &&
             PdSoFar(mm.tables, pd, j)
    requires v == KERNEL_START + j * MIB2 < KERNEL_LIMIT
    modifies mm`words, mm`tables
    ensures Drawn(w0, mm.words, mm.own, mm.tables) && OnlyRows(old(mm.tables), mm.tables, {pd}) &&
            PdSoFar(mm.tables, pd, j + 1)
  {
    PdIndex(j);
    forall i | 0 <= i < 512
      ensures PdAfter(j + 1, i) == if i == j % 512 then Page(PD, j * MIB2) else PdAfter(j, i)
    {
      PdSet(j, i);
    }
    SetPage(mm, pd, PD, Idx(PD, v), ImageV2P(v), w0);
  }

  /** One page of 2 MiB for each piece of the image. */
  method InitImagePd(mm: MemoryManager, pd: nat, kernelEnd: nat, ghost w0: Memory)
    requires Drawn(w0, mm.words, mm.own, mm.tables) && pd in mm.own && mm.own[pd].level == PD && Row(mm.tables, pd)
    requires forall i | 0 <= i < 512 :: mm.tables[pd][i] == Nothing
    requires KERNEL_START <= kernelEnd <= KERNEL_LIMIT
    modifies mm`words, mm`tables
    ensures Drawn(w0, mm.words, mm.own, mm.tables) && OnlyRows(old(mm.tables), mm.tables, {pd}) && Row(mm.tables, pd)
    ensures forall i | 0 <= i < 512 :: mm.tables[pd][i] == PdEntry(kernelEnd - KERNEL_START, i)
  {
    var v := KERNEL_START;
    ghost var j := 0;
    while v < kernelEnd
      invariant v == KERNEL_START + j * MIB2 && (j == 0 || (j - 1) * MIB2 < kernelEnd - KERNEL_START)
      invariant Drawn(w0, mm.words, mm.own, mm.tables) && OnlyRows(old(mm.tables), mm.tables, {pd}) &&
                PdSoFar(mm.tables, pd, j)
    {
      InitImagePage(mm, pd, v, j, w0);
      v, j := v + MIB2, j + 1;
    }
    PdComplete(j, kernelEnd - KERNEL_START);
  }

  method InitKernelPdpt(mm: MemoryManager, l: Layout, kernelEnd: nat, ghost w0: Memory)
    requires Apart(l) && mm.own == Places(l) && Drawn(w0, mm.words, mm.own, mm.tables)
    requires Row(mm.tables, l.pdpts[255]) && Row(mm.tables, l.pd) && Narrow(l.pd) && l.pd % 0x1000 == 0
    requires forall i | 0 <= i < 512 :: mm.tables[l.pdpts[255]][i] == Nothing && mm.tables[l.pd][i] == Nothing
    requires KERNEL_START <= kernelEnd <= KERNEL_LIMIT
    modifies mm`words, mm`tables
    ensures Drawn(w0, mm.words, mm.own, mm.tables)
    ensures OnlyRows(old(mm.tables), mm.tables, {l.pdpts[255], l.pd})
    ensures PdptDone(mm.tables, l, 0, 255) && PdDone(mm.tables, l, kernelEnd - KERNEL_START)
  {
    PlacesAre(l);
    StartIndices();
    SetTable(mm, l.pdpts[255], PDPT, Idx(PDPT, KERNEL_START), l.pd, w0);
    InitImagePd(mm, l.pd, kernelEnd, w0);
  }

  /** The bytes below the end of the last table of 512 GiB that is needed for the managed size. */
  predicate Remapped(managed: nat, p: nat) {
    p / 0x80_0000_0000 * 0x80_0000_0000 < managed
  }

  /** Where byte x of the kernel range leads: one table of 2 MiB pages serves the image, which later pages overwrite. */
  function ImageByte(image: nat, x: nat): Option<nat> {
    if x >= GIB then None
    else if x / MIB2 * MIB2 + GIB < image then Some(x + GIB)
    else if x / MIB2 * MIB2 < image then Some(x)
    else None
  }

  /** All that the first memory map translates. */
  ghost predicate FirstMap(tables: Tables, own: Owners, root: nat, managed: nat, image: nat)
    requires Sound(tables, own) && root in own
  {
    && (forall p: nat :: RemapLeads(tables, own, root, managed, p))
    && (forall x: nat :: ImageLeads(tables, own, root, image, x))
    && forall v: nat :: NowhereElse(tables, own, root, v)
  }

  predicate RemapLeads(tables: Tables, own: Owners, root: nat, managed: nat, p: nat)
    requires Sound(tables, own) && root in own
  {
    p < REMAP_LIMIT - REMAP_START ==>
      Phys(tables, own, root, P2V(p)) == if Remapped(managed, p) then Some(p) else None
  }

  predicate ImageLeads(tables: Tables, own: Owners, root: nat, image: nat, x: nat)
    requires Sound(tables, own) && root in own
  {
    KERNEL_START + x < KERNEL_LIMIT ==> Phys(tables, own, root, KERNEL_START + x) == ImageByte(image, x)
  }

  predicate NowhereElse(tables: Tables, own: Owners, root: nat, v: nat)
    requires Sound(tables, own) && root in own
  {
    !(273 <= Slot(PML4, v) < 401) && Slot(PDPT, v) != 511 * 512 + 510 ==> Phys(tables, own, root, v) == None
  }

  /**
   * The first memory map is well formed, and translates the remapped memory, the kernel image and nothing else. All its
   * entries have the same flags, and no other frame is written.
   */
  method Init(words: Memory, l: Layout, managed: nat, kernelEnd: nat) returns (mm: MemoryManager, cr3: Word)
    requires Loaded(l, words) && KERNEL_START <= kernelEnd <= KERNEL_LIMIT
    ensures fresh(mm) && mm.Valid() && mm.roots == {l.pml4} && mm.own == Places(l)
    ensures Built(mm.tables, l, RemapEnd(managed), kernelEnd - KERNEL_START, 256)
    ensures FirstMap(mm.tables, mm.own, l.pml4, managed, kernelEnd - KERNEL_START)
    ensures Drawn(words, mm.words, mm.own, mm.tables)
    ensures TargetOf(cr3, CR3) == Table(PML4, l.pml4) && Value(cr3, 0, 64) == l.pml4
  {
    mm := InitTables(words, l, managed, kernelEnd);
    BuiltInv(mm.tables, l, RemapEnd(managed), kernelEnd - KERNEL_START);
    FirstMapIs(mm.tables, mm.own, l, managed, kernelEnd - KERNEL_START);
    LoadedInFrames(l, words);
    cr3 := MemoryManager.RootWord(l.pml4);
  }

  method InitTables(words: Memory, l: Layout, managed: nat, kernelEnd: nat) returns (mm: MemoryManager)
    requires Loaded(l, words) && KERNEL_START <= kernelEnd <= KERNEL_LIMIT
    ensures fresh(mm) && mm.roots == {l.pml4} && mm.own == Places(l)
    ensures Built(mm.tables, l, RemapEnd(managed), kernelEnd - KERNEL_START, 256)
    ensures Drawn(words, mm.words, mm.own, mm.tables)
  {
    DrawnFirst(l, words);
    LoadedInFrames(l, words);
    var kernelIdx, remapIdx, last := RootIndices(managed);
    ghost var image := kernelEnd - KERNEL_START;
    ZeroedBuilt(l, words, last, image);
    mm := new MemoryManager(words, Zeroed(words), Places(l), {l.pml4});
    for n := 0 to 256
      invariant mm.own == Places(l) && mm.roots == {l.pml4} && Drawn(words, mm.words, mm.own, mm.tables)
      invariant Built(mm.tables, l, last, image, n)
    {
      InitUpperEntry(mm, l, words, kernelIdx, remapIdx, last, kernelEnd, n);
    }
  }

  /** The entries of the root for the image, and for the first and the last of the remapped memory. */
  method RootIndices(managed: nat) returns (kernelIdx: nat, remapIdx: nat, last: int)
    ensures kernelIdx == 511 && remapIdx == 273 && last == RemapEnd(managed) <= 400
  {
    StartIndices();
    RemapEndIs(managed);
    kernelIdx, remapIdx, last := Idx(PML4, KERNEL_START), Idx(PML4, REMAP_START), RemapEnd(managed);
  }

  /** The static tables have the addresses of frames. */
  predicate InFrames(l: Layout) {
    IsFrame(l.pml4) && IsFrame(l.pd) && forall k | 0 <= k < |l.pdpts| :: IsFrame(l.pdpts[k])
  }

  lemma LoadedInFrames(l: Layout, w0: Memory)
    requires Loaded(l, w0)
    ensures InFrames(l)
  {
    PlacesAre(l);
    assert Allocated(w0, map[], l.pml4) && Allocated(w0, map[], l.pd);
    forall k | 0 <= k < |l.pdpts|
      ensures IsFrame(l.pdpts[k])
    {
      assert Allocated(w0, map[], l.pdpts[k]);
    }
  }

  /** The table of the next entry, and that of the image, are still empty. */
  lemma NextIsEmpty(tables: Tables, l: Layout, last: int, image: nat, n: nat)
    requires Apart(l) && n < 256 && Built(tables, l, last, image, n)
    ensures Row(tables, l.pdpts[n]) && Row(tables, l.pd)
    ensures forall i | 0 <= i < 512 :: tables[l.pdpts[n]][i] == Nothing && tables[l.pd][i] == Nothing
  {
    assert BuiltPdpt(tables, l, last, n, n);
  }

  method InitUpperEntry(mm: MemoryManager, l: Layout, ghost w0: Memory, kernelIdx: nat, remapIdx: nat, last: int,
                        kernelEnd: nat, n: nat)
    requires Apart(l) && InFrames(l) && KERNEL_START <= kernelEnd <= KERNEL_LIMIT && n < 256
    requires kernelIdx == 511 && remapIdx == 273 && last <= 400
    requires mm.own == Places(l) && Drawn(w0, mm.words, mm.own, mm.tables)
    requires Built(mm.tables, l, last, kernelEnd - KERNEL_START, n)
    modifies mm`words, mm`tables
    ensures Drawn(w0, mm.words, mm.own, mm.tables)
    ensures Built(mm.tables, l, last, kernelEnd - KERNEL_START, n + 1)
  {
    NextIsEmpty(mm.tables, l, last, kernelEnd - KERNEL_START, n);
    ghost var before := mm.tables;
    InitPdpt(mm, l, kernelEnd, n, kernelIdx, remapIdx, last, w0);
    BuiltOneMore(before, mm.tables, l, last, kernelEnd - KERNEL_START, n);
    LinkPdpt(mm, l, n, w0);
  }

  method LinkPdpt(mm: MemoryManager, l: Layout, n: nat, ghost w0: Memory)
    requires Apart(l) && n < 256 && mm.own == Places(l) && Drawn(w0, mm.words, mm.own, mm.tables)
    requires Row(mm.tables, l.pml4) && IsFrame(l.pdpts[n])
    modifies mm`words, mm`tables
    ensures Drawn(w0, mm.words, mm.own, mm.tables)
    ensures mm.tables == Put(old(mm.tables), l.pml4, 256 + n, Table(PDPT, l.pdpts[n]))
  {
    PlacesAre(l);
    SetTable(mm, l.pml4, PML4, n + 256, l.pdpts[n], w0);
  }

  /** The table of the image does not depend on the remapped memory. */
  lemma LastPdpt(tables: Tables, l: Layout, last: int)
    requires |l.pdpts| == 256 && PdptDone(tables, l, 0, 255)
    ensures PdptDone(tables, l, last, 255)
  {
  }

  /** The entries of one table of the upper half, by the entry of the root that refers to it. */
  method InitPdpt(mm: MemoryManager, l: Layout, kernelEnd: nat, n: nat, kernelIdx: nat, remapIdx: nat, last: int,
                  ghost w0: Memory)
    requires Apart(l) && KERNEL_START <= kernelEnd <= KERNEL_LIMIT && n < 256
    requires kernelIdx == 511 && remapIdx == 273 && last <= 400
    requires mm.own == Places(l) && Drawn(w0, mm.words, mm.own, mm.tables)
    requires Row(mm.tables, l.pdpts[n]) && Row(mm.tables, l.pd) && IsFrame(l.pd)
    requires forall i | 0 <= i < 512 :: mm.tables[l.pdpts[n]][i] == Nothing && mm.tables[l.pd][i] == Nothing
    modifies mm`words, mm`tables
    ensures Drawn(w0, mm.words, mm.own, mm.tables) && PdptDone(mm.tables, l, last, n)
    ensures OnlyRows(old(mm.tables), mm.tables, if n == 255 then {l.pdpts[n], l.pd} else {l.pdpts[n]})
    ensures n == 255 ==> PdDone(mm.tables, l, kernelEnd - KERNEL_START)
  {
    PlacesAre(l);
    var idx := n + 256;
    if idx == kernelIdx {
      InitKernelPdpt(mm, l, kernelEnd, w0);
      LastPdpt(mm.tables, l, last);
    } else {
      InitOtherPdpt(mm, l, n, remapIdx, last, w0);
    }
  }

  method InitOtherPdpt(mm: MemoryManager, l: Layout, n: nat, remapIdx: nat, last: int, ghost w0: Memory)
    requires Apart(l) && n < 255 && remapIdx == 273 && last <= 400
    requires l.pdpts[n] in mm.own && mm.own[l.pdpts[n]].level == PDPT && Row(mm.tables, l.pdpts[n])
    requires Drawn(w0, mm.words, mm.own, mm.tables) && forall i | 0 <= i < 512 :: mm.tables[l.pdpts[n]][i] == Nothing
    modifies mm`words, mm`tables
    ensures Drawn(w0, mm.words, mm.own, mm.tables) && PdptDone(mm.tables, l, last, n)
    ensures OnlyRows(old(mm.tables), mm.tables, {l.pdpts[n]})
  {
    var idx := n + 256;
    if remapIdx <= idx <= last {
      InitRemapPdpt(mm, l.pdpts[n], idx - remapIdx, w0);
    }
  }

  // ---------------------------------------------------------------- what it translates

  lemma PdptOk(tables: Tables, l: Layout, last: int, k: nat)
    requires Apart(l) && k < 256 && BuiltPdpt(tables, l, last, 256, k)
    ensures l.pdpts[k] in Places(l) && TableOk(tables, Places(l), l.pdpts[k])
  {
    PlacesAre(l);
  }

  lemma BuiltInv(tables: Tables, l: Layout, last: int, image: nat)
    requires Apart(l) && Built(tables, l, last, image, 256)
    ensures Inv(tables, Places(l), {l.pml4})
  {
    PlacesAre(l);
    forall f | f in Places(l)
      ensures TableOk(tables, Places(l), f)
    {
      if f != l.pml4 && f != l.pd {
        var k :| 0 <= k < 256 && l.pdpts[k] == f;
        assert BuiltPdpt(tables, l, last, 256, k);
        PdptOk(tables, l, last, k);
      }
    }
  }

  /** The walk from the table of an entry of the upper half. */
  lemma PdptWalk(tables: Tables, l: Layout, last: int, image: nat, k: nat, v: nat)
    requires Apart(l) && k < 256 && Built(tables, l, last, image, 256) && Sound(tables, Places(l))
    ensures l.pdpts[k] in Places(l)
    ensures Walk(tables, Places(l), l.pdpts[k], v) ==
            if k == 255 && Idx(PDPT, v) == 510 then PdEntry(image, Idx(PD, v)) else PdptEntry(l, last, k, Idx(PDPT, v))
  {
    PlacesAre(l);
    assert BuiltPdpt(tables, l, last, 256, k);
    var j := Idx(PDPT, v);
    assert tables[l.pdpts[k]][j] == PdptEntry(l, last, k, j);
    if k == 255 && j == 510 {
      assert Walk(tables, Places(l), l.pdpts[k], v) == Walk(tables, Places(l), l.pd, v);
      assert tables[l.pd][Idx(PD, v)] == PdEntry(image, Idx(PD, v));
    }
  }

  /** Where every walk of the first memory map ends; nothing else is mapped. */
  lemma BuiltWalk(tables: Tables, l: Layout, last: int, image: nat, v: nat)
    requires Apart(l) && Built(tables, l, last, image, 256) && last < 511
    requires Inv(tables, Places(l), {l.pml4})
    ensures Walk(tables, Places(l), l.pml4, v) ==
            if 273 <= Slot(PML4, v) <= last then Page(PDPT, (Slot(PDPT, v) - 273 * 512) * GIB)
            else if Slot(PDPT, v) == 511 * 512 + 510 then PdEntry(image, Idx(PD, v))
            else Nothing
  {
    var i, j := Idx(PML4, v), Idx(PDPT, v);
    SlotIndices(v);
    RootWalk(tables, l, last, image, v);
    if 256 <= i {
      PdptWalk(tables, l, last, image, i - 256, v);
    }
  }

  lemma SlotIndices(v: nat)
    ensures Slot(PML4, v) == Idx(PML4, v) < 512 && Slot(PDPT, v) == Idx(PML4, v) * 512 + Idx(PDPT, v)
  {
    SlotIsShift(v);
  }

  lemma RootWalk(tables: Tables, l: Layout, last: int, image: nat, v: nat)
    requires Apart(l) && Built(tables, l, last, image, 256) && Sound(tables, Places(l)) && l.pml4 in Places(l)
    ensures Idx(PML4, v) >= 256 ==> l.pdpts[Idx(PML4, v) - 256] in Places(l)
    ensures Walk(tables, Places(l), l.pml4, v) ==
            if Idx(PML4, v) >= 256 then Walk(tables, Places(l), l.pdpts[Idx(PML4, v) - 256], v) else Nothing
  {
    PlacesAre(l);
    assert tables[l.pml4][Idx(PML4, v)] == RootEntry(l, 256, Idx(PML4, v));
  }

  /**
   * Physical memory is reached through the 1 GiB page that holds it, up to the end of the 512 GiB that hold the last
   * byte of the managed size. The size counts from address 0 here, wherever the managed range starts.
   */
  lemma RemapExact(tables: Tables, l: Layout, managed: nat, image: nat, p: nat)
    requires Apart(l) && Built(tables, l, RemapEnd(managed), image, 256) && Inv(tables, Places(l), {l.pml4})
    requires p < REMAP_LIMIT - REMAP_START
    ensures Phys(tables, Places(l), l.pml4, P2V(p)) ==
            if Remapped(managed, p) then Some(p) else None
  {
    RemapEndIs(managed);
    if managed > 0 { LastTable(managed, p); }
    RemapSlots(p);
    BuiltWalk(tables, l, RemapEnd(managed), image, P2V(p));
  }

  lemma RemapReaches(tables: Tables, l: Layout, managed: nat, image: nat, p: nat)
    requires Apart(l) && Built(tables, l, RemapEnd(managed), image, 256) && Inv(tables, Places(l), {l.pml4})
    requires p < managed && p < REMAP_LIMIT - REMAP_START
    ensures Phys(tables, Places(l), l.pml4, P2V(p)) == Some(p)
  {
    RemapExact(tables, l, managed, image, p);
  }

  /** The table that holds p is remapped exactly if it starts below the managed size. */
  lemma LastTable(managed: nat, p: nat)
    requires 0 < managed && p < REMAP_LIMIT - REMAP_START
    ensures Remapped(managed, p) <==> p / 0x80_0000_0000 <= (LastRemapped(managed) - REMAP_START) / 0x80_0000_0000
  {
  }

  lemma FirstMapIs(tables: Tables, own: Owners, l: Layout, managed: nat, image: nat)
    requires Apart(l) && Built(tables, l, RemapEnd(managed), image, 256) && own == Places(l)
    requires Inv(tables, own, {l.pml4})
    ensures FirstMap(tables, own, l.pml4, managed, image)
  {
    forall p: nat
      ensures RemapLeads(tables, own, l.pml4, managed, p)
    {
      if p < REMAP_LIMIT - REMAP_START { RemapExact(tables, l, managed, image, p); }
    }
    forall x: nat
      ensures ImageLeads(tables, own, l.pml4, image, x)
    {
      if KERNEL_START + x < KERNEL_LIMIT { ImageByteIs(tables, l, managed, image, x); }
    }
    forall v: nat
      ensures NowhereElse(tables, own, l.pml4, v)
    {
      NothingElse(tables, l, managed, image, v);
    }
  }

  lemma ImageByteIs(tables: Tables, l: Layout, managed: nat, image: nat, x: nat)
    requires Apart(l) && Built(tables, l, RemapEnd(managed), image, 256) && Inv(tables, Places(l), {l.pml4})
    requires KERNEL_START + x < KERNEL_LIMIT
    ensures Phys(tables, Places(l), l.pml4, KERNEL_START + x) == ImageByte(image, x)
  {
    ImageWalk(tables, l, managed, image, x);
    ImageOffset(x);
  }

  lemma NothingElse(tables: Tables, l: Layout, managed: nat, image: nat, v: nat)
    requires Apart(l) && Built(tables, l, RemapEnd(managed), image, 256) && Inv(tables, Places(l), {l.pml4})
    ensures NowhereElse(tables, Places(l), l.pml4, v)
  {
    RemapEndIs(managed);
    BuiltWalk(tables, l, RemapEnd(managed), image, v);
  }

  lemma RemapSlots(p: nat)
    requires p < REMAP_LIMIT - REMAP_START
    ensures Slot(PML4, P2V(p)) == 273 + p / 0x80_0000_0000
    ensures Slot(PDPT, P2V(p)) == 273 * 512 + p / GIB && P2V(p) % GIB == p % GIB
  {
    SlotIsShift(P2V(p));
    assert P2V(p) % 0x1_0000_0000_0000 == 0x8880_0000_0000 + p;
    Bits.DivModUnique(P2V(p), GIB, REMAP_START / GIB + p / GIB, p % GIB);
  }

  lemma NothingManaged(v: nat)
    requires v == REMAP_START - 1
    ensures Idx(PML4, v) == 272
  {
    IdxIsField(v);
    Bits.DivModUnique(v, 0x1_0000_0000_0000, 0xFFFF, 0x887F_FFFF_FFFF);
    Bits.DivModUnique(0x887F_FFFF_FFFF, 0x80_0000_0000, 272, 0x7F_FFFF_FFFF);
  }

  lemma RemapEndIs(managed: nat)
    ensures RemapEnd(managed) <= 400 && (managed == 0 ==> RemapEnd(managed) == 272)
    ensures 0 < managed ==> RemapEnd(managed) == 273 + (LastRemapped(managed) - REMAP_START) / 0x80_0000_0000
  {
    if managed == 0 {
      NothingManaged(LastRemapped(managed));
    } else {
      RemapSlots(LastRemapped(managed) - REMAP_START);
      SlotIndices(LastRemapped(managed));
    }
  }

  /** The walk for byte x of the kernel range. */
  lemma ImageWalk(tables: Tables, l: Layout, managed: nat, image: nat, x: nat)
    requires Apart(l) && Built(tables, l, RemapEnd(managed), image, 256) && Inv(tables, Places(l), {l.pml4})
    requires KERNEL_START + x < KERNEL_LIMIT
    ensures Walk(tables, Places(l), l.pml4, KERNEL_START + x) == if x < GIB then PdEntry(image, x / MIB2) else Nothing
  {
    RemapEndIs(managed);
    ImageSlots(x);
    BuiltWalk(tables, l, RemapEnd(managed), image, KERNEL_START + x);
  }

  /**
   * An address of the kernel image is mapped to its physical address exactly if it lies in the first GiB of the image
   * and its entry is not written over.
   */
  lemma ImageExact(tables: Tables, l: Layout, managed: nat, image: nat, v: nat)
    requires Apart(l) && Built(tables, l, RemapEnd(managed), image, 256) && Inv(tables, Places(l), {l.pml4})
    requires KERNEL_START <= v < KERNEL_START + image <= KERNEL_LIMIT
    ensures var x := ImageV2P(v);
            Phys(tables, Places(l), l.pml4, v) == Some(x) <==> x < GIB && image <= x / MIB2 * MIB2 + GIB
  {
    ImageWalk(tables, l, managed, image, ImageV2P(v));
    ImageOffset(ImageV2P(v));
    if ImageV2P(v) < GIB { ImageEntry(image, ImageV2P(v)); }
  }

  /** The entry for byte x of the image leads to that byte. */
  lemma ImageEntry(image: nat, x: nat)
    requires x < image && x < GIB
    ensures var t := PdEntry(image, x / MIB2);
            t.Page? && (t.addr + x % MIB2 == x <==> image <= x / MIB2 * MIB2 + GIB)
  {
  }

  lemma ImageOffset(x: nat)
    ensures (KERNEL_START + x) % MIB2 == x % MIB2
  {
    Bits.DivModUnique(KERNEL_START + x, MIB2, KERNEL_START / MIB2 + x / MIB2, x % MIB2);
  }

  /** The whole image is mapped to its physical addresses exactly if it is no larger than 1 GiB. */
  lemma ImageReaches(tables: Tables, l: Layout, managed: nat, image: nat)
    requires Apart(l) && Built(tables, l, RemapEnd(managed), image, 256) && Inv(tables, Places(l), {l.pml4})
    requires KERNEL_START + image <= KERNEL_LIMIT
    ensures image <= GIB <==>
            forall v | KERNEL_START <= v < KERNEL_START + image ::
              Phys(tables, Places(l), l.pml4, v) == Some(ImageV2P(v))
  {
    if image <= GIB {
      forall v | KERNEL_START <= v < KERNEL_START + image
        ensures Phys(tables, Places(l), l.pml4, v) == Some(ImageV2P(v))
      {
        ImageExact(tables, l, managed, image, v);
      }
    } else {
      ImageExact(tables, l, managed, image, KERNEL_START + GIB);
    }
  }

  /** The second byte of the image is translated to the address of the first. */
  lemma SecondByte(tables: Tables, l: Layout, managed: nat, image: nat)
    requires Apart(l) && Built(tables, l, RemapEnd(managed), image, 256) && Inv(tables, Places(l), {l.pml4})
    requires 1 < image <= GIB
    ensures Trans(tables, Places(l), l.pml4, KERNEL_START + 1) == Some(0)
    ensures Phys(tables, Places(l), l.pml4, KERNEL_START + 1) == Some(1)
  {
    ImageWalk(tables, l, managed, image, 1);
    ImageOffset(1);
  }

  lemma ImageSlots(x: nat)
    requires KERNEL_START + x < KERNEL_LIMIT
    ensures Slot(PML4, KERNEL_START + x) == 511 && Slot(PDPT, KERNEL_START + x) == 511 * 512 + 510 + x / GIB
    ensures x < GIB ==> Idx(PDPT, KERNEL_START + x) == 510
    ensures Idx(PD, KERNEL_START + x) == x % GIB / MIB2
  {
    var v, y := KERNEL_START + x, 0xFFFF_8000_0000 + x;
    SlotIsShift(v);
    Bits.DivModUnique(v, 0x1_0000_0000_0000, 0xFFFF, y);
    Bits.DivModUnique(y, 0x80_0000_0000, 511, 0x7F_8000_0000 + x);
    Bits.DivModUnique(y, GIB, 511 * 512 + 510 + x / GIB, x % GIB);
    IdxIsField(v);
    Bits.DivModUnique(v, GIB, KERNEL_START / GIB + x / GIB, x % GIB);
  }
}
