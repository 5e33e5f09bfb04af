/** Page table entries: 64-bit words with an address and flags, in the format of 4-level paging. */
module Entry {
  import opened Options
  import opened Bits
  import opened MachineWord

  datatype Level = CR3 | PML4 | PDPT | PD | PT

  datatype Flag = Present | ReadWrite | UserSuper | PageSize | Global

  datatype Target = Nothing | Table(level: Level, addr: nat) | Page(level: Level, addr: nat)

  /** A flag read from an entry. */
  datatype Reading = Unavailable | Clear | Set

  function NextLevel(level: Level): Option<Level> {
    match level
    case CR3 => Some(PML4)
    case PML4 => Some(PDPT)
    case PDPT => Some(PD)
    case PD => Some(PT)
    case PT => None
  }

  predicate IsMiddle(level: Level) {
    level.PDPT? || level.PD?
  }

  /** The index of a flag, given the level and the entry's present and page-size bits. */
  function FlagIdx(flag: Flag, level: Level, present: bool, pageSize: bool): Option<nat> {
    if level.CR3? then None
    else if !present && flag != Present then None
    else
      match flag
      case Present => Some(0)
      case ReadWrite => Some(1)
      case UserSuper => Some(2)
      case PageSize => if IsMiddle(level) then Some(7) else None
      case Global => if level.PT? || (IsMiddle(level) && pageSize) then Some(8) else None
  }

  predicate BitAt(w: Word, idx: Option<nat>) {
    idx.Some? && idx.value in w
  }

  predicate IsPresent(w: Word, level: Level) {
    BitAt(w, FlagIdx(Present, level, false, false))
  }

  predicate IsLarge(w: Word, level: Level) {
    BitAt(w, FlagIdx(PageSize, level, IsPresent(w, level), false))
  }

  /** Where a flag is in this word, if the entry has it. */
  function IdxIn(w: Word, level: Level, flag: Flag): Option<nat> {
    FlagIdx(flag, level, IsPresent(w, level), IsLarge(w, level))
  }

  /** The value of a flag, if the entry has it. */
  function FlagOf(w: Word, level: Level, flag: Flag): Reading {
    var idx := IdxIn(w, level, flag);
    if idx.None? then Unavailable else if idx.value in w then Set else Clear
  }

  /** The address in the word: bits 12 to 47, without bit 12 in the entry of a large page. */
  function AddrIn(w: Word, large: bool): nat {
    Value(Masked(w, if large then 13 else 12, 48), 0, 48)
  }

  /** What the entry refers to. The source's last, unreachable case is the dead branch here. */
  function TargetOf(w: Word, level: Level): (t: Target)
    ensures t.Page? ==> t.level == level && (IsMiddle(level) || level.PT?)
    ensures t.Table? ==> NextLevel(level) == Some(t.level)
  {
    if FlagOf(w, level, Present) == Clear then Nothing
    else
      var isPage := FlagOf(w, level, PageSize);
      var addr := AddrIn(w, IsMiddle(level) && isPage == Set);
      if (level.PT? && isPage == Unavailable) || (IsMiddle(level) && isPage == Set) then Page(level, addr)
      else if ((level.CR3? || level.PML4?) && isPage == Unavailable) || (IsMiddle(level) && isPage == Clear) then
        Table(NextLevel(level).value, addr)
      else
        assert false; Nothing
  }

  /** The alignment of the address of a target. */
  function Align(t: Target): nat {
    if t.Page? && t.level.PDPT? then 0x4000_0000 else if t.Page? && t.level.PD? then 0x20_0000 else 0x1000
  }

  /** Its lowest bit. */
  function AlignOrder(t: Target): nat {
    if t.Page? && t.level.PDPT? then 30 else if t.Page? && t.level.PD? then 21 else 12
  }

  /** `set_addr`: the new word and whether the address was accepted. */
  function SetAddr(w: Word, level: Level, addr: nat): (Word, bool) {
    var t := TargetOf(w, level);
    if t.Nothing? || addr % Align(t) != 0 then (w, false)
    else (Cleared(w, AlignOrder(t), 48) + Bin(addr), true)
  }

  // ---------------------------------------------------------------- reinit

  /** Every flag of the list has a bit. */
  predicate Defined(level: Level, flags: seq<Flag>, present: bool, pageSize: bool) {
    forall f | f in flags :: FlagIdx(f, level, present, pageSize).Some?
  }

  /** The bits of a list of flags. */
  function DataOf(level: Level, flags: seq<Flag>): Word
    requires Defined(level, flags, Present in flags, PageSize in flags)
  {
    set f | f in flags :: FlagIdx(f, level, Present in flags, PageSize in flags).value
  }

  /** `reinit`: the word afterwards and whether it succeeded. */
  function Reinited(w: Word, level: Level, addr: nat, flags: seq<Flag>): (Word, bool) {
    if Defined(level, flags, Present in flags, PageSize in flags) then SetAddr(DataOf(level, flags), level, addr)
    else (w, false)
  }

  /** The flag list is valid at the level: it is empty for CR3, and otherwise says that the entry is present. */
  predicate ValidFlags(level: Level, flags: seq<Flag>) {
    (level.CR3? <==> Present !in flags) && Defined(level, flags, Present in flags, PageSize in flags)
  }

  predicate IsBig(level: Level, flags: seq<Flag>) {
    IsMiddle(level) && PageSize in flags
  }

  /** The kind of entry that a flag list makes. */
  function KindOf(level: Level, flags: seq<Flag>, addr: nat): Target {
    if level.PT? || IsBig(level, flags) then Page(level, addr)
    else Table(NextLevel(level).value, addr)
  }

  /** Physical addresses are at most 48 bits wide. */
  predicate Narrow(addr: nat) {
    addr < 0x1_0000_0000_0000
  }

  predicate AddrFits(level: Level, flags: seq<Flag>, addr: nat) {
    addr % Align(KindOf(level, flags, addr)) == 0
  }

  /** Different flags have different bits, all below bit 9. */
  lemma FlagIdxInjective(f: Flag, g: Flag, level: Level, present: bool, pageSize: bool)
    requires FlagIdx(f, level, present, pageSize).Some? && FlagIdx(g, level, present, pageSize).Some?
    ensures FlagIdx(f, level, present, pageSize) == FlagIdx(g, level, present, pageSize) <==> f == g
    ensures FlagIdx(f, level, present, pageSize).value < 9
  {
  }

  /** The word has exactly the bits of the flags of the list. */
  predicate Carries(w: Word, level: Level, flags: seq<Flag>) {
    forall g: Flag :: CarriesFlag(w, level, flags, g)
  }

  predicate CarriesFlag(w: Word, level: Level, flags: seq<Flag>, g: Flag) {
    var idx := FlagIdx(g, level, Present in flags, PageSize in flags);
    idx.Some? ==> (idx.value in w <==> g in flags)
  }

  lemma DataCarries(level: Level, flags: seq<Flag>)
    requires Defined(level, flags, Present in flags, PageSize in flags)
    ensures Carries(DataOf(level, flags), level, flags)
    ensures forall i | i in DataOf(level, flags) :: i < 9
  {
    var p, s := Present in flags, PageSize in flags;
    forall g: Flag
      ensures CarriesFlag(DataOf(level, flags), level, flags, g)
    {
      if FlagIdx(g, level, p, s).Some? {
        forall f | f in flags
          ensures FlagIdx(f, level, p, s) == FlagIdx(g, level, p, s) <==> f == g
        {
          FlagIdxInjective(f, g, level, p, s);
        }
      }
    }
  }

  /** In such a word every flag reads as the list says. */
  lemma FlagsReadBack(w: Word, level: Level, flags: seq<Flag>, g: Flag)
    requires ValidFlags(level, flags) && Carries(w, level, flags)
    ensures IsPresent(w, level) == (Present in flags) && IsLarge(w, level) == (PageSize in flags)
    ensures FlagOf(w, level, g) ==
            if FlagIdx(g, level, Present in flags, PageSize in flags).None? then Unavailable
            else if g in flags then Set else Clear
  {
    assert CarriesFlag(w, level, flags, Present);
    assert CarriesFlag(w, level, flags, PageSize);
    assert CarriesFlag(w, level, flags, g);
  }

  lemma TargetFromFlags(w: Word, level: Level, flags: seq<Flag>)
    requires ValidFlags(level, flags) && Carries(w, level, flags)
    ensures TargetOf(w, level) == KindOf(level, flags, AddrIn(w, IsBig(level, flags)))
  {
    FlagsReadBack(w, level, flags, Present);
    FlagsReadBack(w, level, flags, PageSize);
  }

  lemma NeedsPresent(f: Flag, level: Level, flags: seq<Flag>)
    requires f in flags && FlagIdx(f, level, Present in flags, PageSize in flags).Some?
    ensures Present in flags && !level.CR3?
  {
  }

  /** Without the present flag only CR3 refers to anything, and CR3 takes no flags. */
  lemma NotPresent(level: Level, flags: seq<Flag>)
    requires !ValidFlags(level, flags)
    requires Defined(level, flags, Present in flags, PageSize in flags)
    ensures TargetOf(DataOf(level, flags), level) == Nothing
  {
    if |flags| > 0 {
      NeedsPresent(flags[0], level, flags);
    }
  }

  /** `reinit` accepts exactly the valid flag lists with an aligned address. */
  lemma ReinitAccepts(w: Word, level: Level, addr: nat, flags: seq<Flag>)
    ensures Reinited(w, level, addr, flags).1 <==> ValidFlags(level, flags) && AddrFits(level, flags, addr)
    ensures Reinited(w, level, addr, flags).1 ==>
              Reinited(w, level, addr, flags).0 ==
              Cleared(DataOf(level, flags), AlignOrder(KindOf(level, flags, addr)), 48) + Bin(addr)
  {
    if ValidFlags(level, flags) {
      DataCarries(level, flags);
      TargetFromFlags(DataOf(level, flags), level, flags);
    } else if Defined(level, flags, Present in flags, PageSize in flags) {
      NotPresent(level, flags);
    }
  }

  /** The bits of an address below its alignment are clear. */
  lemma AlignedBits(addr: nat, order: nat)
    requires addr % Pow2(order) == 0
    ensures forall i | 0 <= i < order :: i !in Bin(addr)
  {
    ExactShl(addr, order);
    forall i | 0 <= i < order ensures i !in Bin(addr) {
      MultipleHasNoLowBit(addr / Pow2(order), order, i);
    }
  }

  lemma AlignIsPow2(t: Target)
    ensures Align(t) == Pow2(AlignOrder(t))
  {
    Pow2Values();
  }

  lemma NarrowIsPow2(addr: nat)
    ensures Narrow(addr) <==> addr < Pow2(48)
  {
    Pow2Values();
    Pow2Add(30, 18);
  }

  lemma BigAligned(addr: nat)
    requires addr % 0x20_0000 == 0 || addr % 0x4000_0000 == 0
    ensures addr % 0x2000 == 0
  {
    if addr % 0x20_0000 == 0 {
      DivModUnique(addr, 0x2000, addr / 0x20_0000 * 0x100, 0);
    } else {
      DivModUnique(addr, 0x2000, addr / 0x4000_0000 * 0x2_0000, 0);
    }
  }

  lemma AlignedTo(addr: nat, t: Target, lower: nat)
    requires addr % Align(t) == 0
    requires lower == if Align(t) == 0x1000 then 12 else 13
    ensures addr % Pow2(lower) == 0
  {
    Pow2Values();
    assert Pow2(13) == 2 * Pow2(12);
    if lower == 13 {
      BigAligned(addr);
    }
  }

  /** The word that a successful `reinit` leaves holds the flags and the address. */
  lemma WrittenWord(data: Word, addr: nat, t: Target, lower: nat)
    requires Narrow(addr) && addr % Align(t) == 0
    requires lower == if Align(t) == 0x1000 then 12 else 13
    requires forall i | i in data :: i < 9
    ensures forall i | 0 <= i < 9 :: i in Cleared(data, AlignOrder(t), 48) + Bin(addr) <==> i in data
    ensures Value(Masked(Cleared(data, AlignOrder(t), 48) + Bin(addr), lower, 48), 0, 48) == addr
  {
    SetAddrBits(data, addr, t);
    SetAddrReads(data, addr, t, lower);
  }

  lemma SameLowBits(v: Word, w: Word, level: Level, flags: seq<Flag>)
    requires Carries(v, level, flags) && forall i | 0 <= i < 9 :: i in v <==> i in w
    ensures Carries(w, level, flags)
  {
    forall g: Flag ensures CarriesFlag(w, level, flags, g) {
      assert CarriesFlag(v, level, flags, g);
    }
  }

  // ---------------------------------------------------------------- the format

  /** The bit of a flag in the format of 4-level paging. */
  function BitNumber(f: Flag): nat {
    match f
    case Present => 0
    case ReadWrite => 1
    case UserSuper => 2
    case PageSize => 7
    case Global => 8
  }

  /** An entry has the flag: none does in CR3, and a missing page has its present flag alone. */
  predicate HasFlag(level: Level, present: bool, large: bool, f: Flag) {
    match f
    case Present => !level.CR3?
    case ReadWrite => !level.CR3? && present
    case UserSuper => !level.CR3? && present
    case PageSize => (level.PDPT? || level.PD?) && present
    case Global => present && (level.PT? || ((level.PDPT? || level.PD?) && large))
  }

  /** The flags that an entry has are at the bits of the format. */
  lemma FlagsInFormat(w: Word, level: Level, f: Flag)
    ensures IsPresent(w, level) == (!level.CR3? && 0 in w)
    ensures IsLarge(w, level) == ((level.PDPT? || level.PD?) && 0 in w && 7 in w)
    ensures FlagOf(w, level, f) ==
            if !HasFlag(level, 0 in w, 7 in w, f) then Unavailable else if BitNumber(f) in w then Set else Clear
  {
  }

  /** The bits of the listed flags. */
  function BitsOf(flags: seq<Flag>): Word {
    set f | f in flags :: BitNumber(f)
  }

  /** The number that the listed flags make. */
  function FlagNumber(flags: seq<Flag>): nat {
    (if Present in flags then 1 else 0) + (if ReadWrite in flags then 2 else 0) +
    (if UserSuper in flags then 4 else 0) +
    (if PageSize in flags then 0x80 else 0) + (if Global in flags then 0x100 else 0)
  }

  /** The flag lists that an entry can be made with. */
  predicate Allowed(level: Level, flags: seq<Flag>) {
    if level.CR3? then flags == []
    else
      && Present in flags
      && (PageSize in flags ==> level.PDPT? || level.PD?)
      && (Global in flags ==> level.PT? || PageSize in flags)
  }

  /** The bytes that the address must be a multiple of. */
  function Unit(level: Level, flags: seq<Flag>): nat {
    if PageSize in flags && level.PDPT? then 0x4000_0000
    else if PageSize in flags && level.PD? then 0x20_0000
    else 0x1000
  }

  lemma AllowedExactly(level: Level, flags: seq<Flag>, addr: nat)
    ensures ValidFlags(level, flags) <==> Allowed(level, flags)
    ensures AddrFits(level, flags, addr) <==> addr % Unit(level, flags) == 0
  {
    if Allowed(level, flags) {
      forall f | f in flags
        ensures FlagIdx(f, level, Present in flags, PageSize in flags).Some?
      {
      }
    }
    if ValidFlags(level, flags) && level.CR3? && flags != [] {
      NeedsPresent(flags[0], level, flags);
    }
  }

  lemma DataIsBits(level: Level, flags: seq<Flag>)
    requires Defined(level, flags, Present in flags, PageSize in flags)
    ensures DataOf(level, flags) == BitsOf(flags)
  {
    var p, s := Present in flags, PageSize in flags;
    assert forall f | f in flags :: FlagIdx(f, level, p, s).value == BitNumber(f);
  }

  lemma BitsOfFlag(flags: seq<Flag>, f: Flag)
    ensures BitNumber(f) in BitsOf(flags) <==> f in flags
  {
    if BitNumber(f) in BitsOf(flags) {
      var g :| g in flags && BitNumber(g) == BitNumber(f);
      assert g == f;
    }
  }

  /** The number of a word whose bits are among those of the flags. */
  lemma LowNumber(w: Word, n: nat)
    requires n > 9 && forall i | i in w :: i <= 2 || 7 <= i <= 8
    ensures Value(w, 0, n) ==
            (if 0 in w then 1 else 0) + (if 1 in w then 2 else 0) + (if 2 in w then 4 else 0) +
            (if 7 in w then 0x80 else 0) + (if 8 in w then 0x100 else 0)
  {
    ValueNoBits(w, 9, n);
    assert Value(w, 7, n) == (if 7 in w then 1 else 0) + 2 * Value(w, 8, n);
    assert Value(w, 5, n) == 2 * Value(w, 6, n) == 4 * Value(w, 7, n);
    assert Value(w, 3, n) == 2 * Value(w, 4, n) == 4 * Value(w, 5, n);
    assert Value(w, 1, n) == (if 1 in w then 1 else 0) + 2 * Value(w, 2, n);
  }

  lemma BitsNumber(flags: seq<Flag>)
    ensures Value(BitsOf(flags), 0, 64) == FlagNumber(flags)
  {
    BitsOfFlag(flags, Present);
    BitsOfFlag(flags, ReadWrite);
    BitsOfFlag(flags, UserSuper);
    BitsOfFlag(flags, PageSize);
    BitsOfFlag(flags, Global);
    LowNumber(BitsOf(flags), 64);
  }

  /** The bits of an accepted address are apart from those of the flags. */
  lemma AddressApart(addr: nat, t: Target)
    requires addr % Align(t) == 0 && Narrow(addr)
    ensures forall i | 0 <= i < 12 :: i !in Bin(addr)
    ensures Value(Bin(addr), 0, 64) == addr
  {
    AlignIsPow2(t);
    AlignedBits(addr, AlignOrder(t));
    NarrowIsPow2(addr);
    Pow2Monotone(48, 64);
    BinValue(addr);
  }

  /**
   * The word after `reinit`, bit by bit and as a number: address and flags where it succeeds, the flags alone where
   * only the address is refused, and the old word otherwise.
   */
  lemma ReinitNumber(w: Word, level: Level, addr: nat, flags: seq<Flag>)
    ensures var (w', ok) := Reinited(w, level, addr, flags);
            && (ok <==> Allowed(level, flags) && addr % Unit(level, flags) == 0)
            && (ok ==> w' == BitsOf(flags) + Bin(addr))
            && (ok && Narrow(addr) ==> Value(w', 0, 64) == addr + FlagNumber(flags))
            && (!ok && Allowed(level, flags) ==> w' == BitsOf(flags) && Value(w', 0, 64) == FlagNumber(flags))
            && (!Allowed(level, flags) ==> w' == if flags == [] then {} else w)
  {
    AllowedExactly(level, flags, addr);
    ReinitAccepts(w, level, addr, flags);
    BitsNumber(flags);
    if Reinited(w, level, addr, flags).1 {
      DataIsBits(level, flags);
      assert Cleared(BitsOf(flags), AlignOrder(KindOf(level, flags, addr)), 48) == BitsOf(flags);
      if Narrow(addr) {
        AddressApart(addr, KindOf(level, flags, addr));
        ValueAdds(BitsOf(flags), Bin(addr), 0, 64);
      }
    } else if Defined(level, flags, Present in flags, PageSize in flags) {
      DataIsBits(level, flags);
      if flags != [] { NeedsPresent(flags[0], level, flags); }
    }
  }

  // ---------------------------------------------------------------- reading back

  /** What `reinit` wrote is read back: address, kind, next level and every flag. */
  lemma ReinitRoundTrip(w: Word, level: Level, addr: nat, flags: seq<Flag>, g: Flag)
    requires Allowed(level, flags) && addr % Unit(level, flags) == 0 && Narrow(addr)
    ensures Reinited(w, level, addr, flags).1
    ensures Value(Reinited(w, level, addr, flags).0, 0, 64) == addr + FlagNumber(flags)
    ensures TargetOf(Reinited(w, level, addr, flags).0, level) == KindOf(level, flags, addr)
    ensures FlagOf(Reinited(w, level, addr, flags).0, level, g) ==
            if !HasFlag(level, Present in flags, PageSize in flags, g) then Unavailable
            else if g in flags then Set else Clear
  {
    ReinitNumber(w, level, addr, flags);
    AllowedExactly(level, flags, addr);
    ReinitAccepts(w, level, addr, flags);
    var w' := Reinited(w, level, addr, flags).0;
    DataCarries(level, flags);
    WrittenWord(DataOf(level, flags), addr, KindOf(level, flags, addr), if IsBig(level, flags) then 13 else 12);
    SameLowBits(DataOf(level, flags), w', level, flags);
    TargetFromFlags(w', level, flags);
    FlagsReadBack(w', level, flags, g);
  }

  /** A misaligned address is refused after the flags are already written: the entry is left present, at address 0. */
  lemma MisalignedLeavesZero(w: Word, level: Level, addr: nat, flags: seq<Flag>)
    requires ValidFlags(level, flags) && !AddrFits(level, flags, addr)
    ensures !Reinited(w, level, addr, flags).1
    ensures TargetOf(Reinited(w, level, addr, flags).0, level) == KindOf(level, flags, 0)
  {
    ReinitAccepts(w, level, addr, flags);
    DataCarries(level, flags);
    TargetFromFlags(DataOf(level, flags), level, flags);
    MaskedZero(DataOf(level, flags), 12);
    MaskedZero(DataOf(level, flags), 13);
  }

  lemma MaskedZero(data: Word, lower: nat)
    requires 9 <= lower <= 48 && forall i | i in data :: i < 9
    ensures Value(Masked(data, lower, 48), 0, 48) == 0
  {
    ValueNoBits(Masked(data, lower, 48), 0, 48);
  }

  /** The target with another address. */
  function Moved(t: Target, addr: nat): Target {
    match t
    case Nothing => Nothing
    case Table(level, _) => Table(level, addr)
    case Page(level, _) => Page(level, addr)
  }

  lemma SetAddrBits(w: Word, addr: nat, t: Target)
    requires addr % Align(t) == 0
    ensures forall i | 0 <= i < 9 :: i in Cleared(w, AlignOrder(t), 48) + Bin(addr) <==> i in w
  {
    AlignIsPow2(t);
    AlignedBits(addr, AlignOrder(t));
  }

  lemma SameFlags(v: Word, w: Word, level: Level, g: Flag)
    requires forall i | 0 <= i < 9 :: i in v <==> i in w
    ensures FlagOf(v, level, g) == FlagOf(w, level, g)
  {
  }

  /**
   * `set_addr` changes no flag; it moves the target exactly if the bits between the address mask and the alignment were
   * clear.
   */
  lemma SetAddrMoves(w: Word, level: Level, addr: nat)
    requires SetAddr(w, level, addr).1 && Narrow(addr)
    ensures forall g: Flag :: FlagOf(SetAddr(w, level, addr).0, level, g) == FlagOf(w, level, g)
    ensures TargetOf(SetAddr(w, level, addr).0, level) == Moved(TargetOf(w, level), addr) <==>
            forall i | 13 <= i < AlignOrder(TargetOf(w, level)) :: i !in w
  {
    var t, w' := TargetOf(w, level), SetAddr(w, level, addr).0;
    SetAddrBits(w, addr, t);
    forall g: Flag ensures FlagOf(w', level, g) == FlagOf(w, level, g) {
      SameFlags(w', w, level, g);
    }
    var lower := if Align(t) == 0x1000 then 12 else 13;
    if forall i | 13 <= i < AlignOrder(t) :: i !in w {
      SetAddrReads(w, addr, t, lower);
    } else {
      var i :| 13 <= i < AlignOrder(t) && i in w;
      SetAddrMisreads(w, addr, t, i);
    }
  }

  /** A bit below the alignment stays and is read as part of the address. */
  lemma SetAddrMisreads(w: Word, addr: nat, t: Target, i: nat)
    requires Narrow(addr) && addr % Align(t) == 0 && 13 <= i < AlignOrder(t) && i in w
    ensures Value(Masked(Cleared(w, AlignOrder(t), 48) + Bin(addr), 13, 48), 0, 48) != addr
  {
    var m := Masked(Cleared(w, AlignOrder(t), 48) + Bin(addr), 13, 48);
    assert i in m;
    AlignIsPow2(t);
    ExactShl(addr, AlignOrder(t));
    MultipleHasNoLowBit(addr / Align(t), AlignOrder(t), i);
    BitOfValue(m, 0, 48, i);
  }

  lemma SetAddrReads(w: Word, addr: nat, t: Target, lower: nat)
    requires Narrow(addr) && addr % Align(t) == 0
    requires lower == if Align(t) == 0x1000 then 12 else 13
    requires forall i | 13 <= i < AlignOrder(t) :: i !in w
    ensures Value(Masked(Cleared(w, AlignOrder(t), 48) + Bin(addr), lower, 48), 0, 48) == addr
  {
    NarrowIsPow2(addr);
    AlignedTo(addr, t, lower);
    MaskedReadsBack(addr, Cleared(w, AlignOrder(t), 48) + Bin(addr), lower, 48);
  }

  // ---------------------------------------------------------------- set_flags

  /** Every flag of the list has a bit in this entry. */
  predicate HasAll(w: Word, level: Level, flags: seq<Flag>) {
    Defined(level, flags, IsPresent(w, level), IsLarge(w, level))
  }

  /** The word differs from the old one exactly in the bits of the listed flags, which have the new value. */
  ghost predicate FlagsSet(before: Word, after: Word, level: Level, flags: seq<Flag>, value: bool)
    requires HasAll(before, level, flags)
  {
    forall i: nat :: i in after <==> if OneOf(before, level, flags, i) then value else i in before
  }

  predicate OneOf(w: Word, level: Level, flags: seq<Flag>, i: nat)
    requires HasAll(w, level, flags)
  {
    exists f :: f in flags && IdxIn(w, level, f) == Some(i)
  }

  /** The word with the bits of the listed flags set or cleared. */
  function WithBits(w: Word, flags: seq<Flag>, value: bool): Word {
    if value then w + BitsOf(flags) else w - BitsOf(flags)
  }

  /** `set_flags` takes these lists. */
  predicate Settable(w: Word, level: Level, flags: seq<Flag>) {
    && Present !in flags && PageSize !in flags
    && (flags != [] ==> !level.CR3? && 0 in w)
    && (Global in flags ==> level.PT? || ((level.PDPT? || level.PD?) && 7 in w))
  }

  lemma SettableExactly(w: Word, level: Level, flags: seq<Flag>)
    ensures Settable(w, level, flags) <==> Present !in flags && PageSize !in flags && HasAll(w, level, flags)
  {
    if flags != [] { assert flags[0] in flags; }
  }

  lemma FlagsSetBits(before: Word, after: Word, level: Level, flags: seq<Flag>, value: bool)
    requires HasAll(before, level, flags) && FlagsSet(before, after, level, flags, value)
    ensures after == WithBits(before, flags, value)
  {
    forall i: nat
      ensures OneOf(before, level, flags, i) <==> i in BitsOf(flags)
    {
      assert forall f | f in flags :: IdxIn(before, level, f) == Some(BitNumber(f));
      if i in BitsOf(flags) {
        var f :| f in flags && BitNumber(f) == i;
        assert IdxIn(before, level, f) == Some(i);
      }
    }
  }

  /** Only the present and page-size flags decide where the flags are and what the entry refers to. */
  lemma FlagsSetKeepsPlaces(before: Word, after: Word, level: Level, flags: seq<Flag>, value: bool)
    requires HasAll(before, level, flags) && Present !in flags && PageSize !in flags
    requires FlagsSet(before, after, level, flags, value)
    ensures IsPresent(after, level) == IsPresent(before, level) && IsLarge(after, level) == IsLarge(before, level)
  {
    assert !OneOf(before, level, flags, 0);
    assert !OneOf(before, level, flags, 7);
  }

  lemma FlagsSetKeepsAddr(before: Word, after: Word, level: Level, flags: seq<Flag>, value: bool)
    requires HasAll(before, level, flags) && FlagsSet(before, after, level, flags, value)
    ensures Masked(after, 12, 48) == Masked(before, 12, 48)
    ensures Masked(after, 13, 48) == Masked(before, 13, 48)
  {
    forall i: nat | 12 <= i
      ensures !OneOf(before, level, flags, i)
    {
    }
  }

  lemma FlagsSetKeepsTarget(before: Word, after: Word, level: Level, flags: seq<Flag>, value: bool)
    requires HasAll(before, level, flags) && Present !in flags && PageSize !in flags
    requires FlagsSet(before, after, level, flags, value)
    ensures TargetOf(after, level) == TargetOf(before, level)
  {
    FlagsSetReadBack(before, after, level, flags, value, Present);
    FlagsSetReadBack(before, after, level, flags, value, PageSize);
    FlagsSetKeepsAddr(before, after, level, flags, value);
  }

  lemma FlagsSetReadBack(before: Word, after: Word, level: Level, flags: seq<Flag>, value: bool, g: Flag)
    requires HasAll(before, level, flags) && Present !in flags && PageSize !in flags
    requires FlagsSet(before, after, level, flags, value)
    ensures FlagOf(after, level, g) == if g in flags then (if value then Set else Clear) else FlagOf(before, level, g)
  {
    FlagsSetKeepsPlaces(before, after, level, flags, value);
    var p, s := IsPresent(before, level), IsLarge(before, level);
    if IdxIn(before, level, g).Some? {
      forall f | f in flags
        ensures FlagIdx(f, level, p, s) == FlagIdx(g, level, p, s) <==> f == g
      {
        FlagIdxInjective(f, g, level, p, s);
      }
      assert OneOf(before, level, flags, IdxIn(before, level, g).value) <==> g in flags;
    }
  }

  lemma FlagsSetSnoc(before: Word, mid: Word, after: Word, level: Level, flags: seq<Flag>, last: Flag, value: bool)
    requires HasAll(before, level, flags) && FlagsSet(before, mid, level, flags, value)
    requires IdxIn(before, level, last).Some?
    requires after == if value then mid + {IdxIn(before, level, last).value}
             else mid - {IdxIn(before, level, last).value}
    ensures HasAll(before, level, flags + [last]) && FlagsSet(before, after, level, flags + [last], value)
  {
    forall i: nat
      ensures OneOf(before, level, flags + [last], i) <==>
              OneOf(before, level, flags, i) || IdxIn(before, level, last) == Some(i)
    {
      if OneOf(before, level, flags, i) {
        var f :| f in flags && IdxIn(before, level, f) == Some(i);
        assert f in flags + [last];
      } else if IdxIn(before, level, last) == Some(i) {
        assert last in flags + [last];
      }
    }
  }

  // ---------------------------------------------------------------- a mutable entry

  class EntryRef {
    const level: Level
    var raw: Word

    constructor (level: Level, raw: Word)
      ensures this.level == level && this.raw == raw
    {
      this.level, this.raw := level, raw;
    }

    /**
     * All or nothing: the listed flags get the value and no other flag or target changes, or the word stays as it was.
     */
    method SetFlags(flags: seq<Flag>, value: bool) returns (ok: bool)
      modifies this
      ensures ok <==> Settable(old(raw), level, flags)
      ensures raw == if ok then WithBits(old(raw), flags, value) else old(raw)
      ensures ok ==> TargetOf(raw, level) == TargetOf(old(raw), level)
      ensures ok ==> forall g: Flag :: FlagOf(raw, level, g) ==
                       if g in flags then (if value then Set else Clear) else FlagOf(old(raw), level, g)
    {
      SettableExactly(raw, level, flags);
      if Present in flags || PageSize in flags {
        return false;
      }
      var prev := raw;
      var n := 0;
      while n < |flags|
        invariant n <= |flags| && HasAll(prev, level, flags[..n])
        invariant FlagsSet(prev, raw, level, flags[..n], value)
      {
        FlagsSetKeepsPlaces(prev, raw, level, flags[..n], value);
        var idx := IdxIn(raw, level, flags[n]);
        if idx.None? {
          raw := prev;
          return false;
        }
        assert flags[..n + 1] == flags[..n] + [flags[n]];
        ghost var mid := raw;
        raw := if value then raw + {idx.value} else raw - {idx.value};
        FlagsSetSnoc(prev, mid, raw, level, flags[..n], flags[n], value);
        n := n + 1;
      }
      assert flags[..|flags|] == flags;
      FlagsSetKeepsTarget(prev, raw, level, flags, value);
      FlagsSetBits(prev, raw, level, flags, value);
      forall g: Flag
        ensures FlagOf(raw, level, g) == if g in flags then (if value then Set else Clear) else FlagOf(prev, level, g)
      {
        FlagsSetReadBack(prev, raw, level, flags, value, g);
      }
      return true;
    }

    /** All or nothing; on success the flags stay. */
    method SetAddress(addr: nat) returns (ok: bool)
      modifies this
      ensures (raw, ok) == SetAddr(old(raw), level, addr)
      ensures !ok ==> raw == old(raw)
      ensures ok && Narrow(addr) ==> forall g: Flag :: FlagOf(raw, level, g) == FlagOf(old(raw), level, g)
    {
      if SetAddr(raw, level, addr).1 && Narrow(addr) {
        SetAddrMoves(raw, level, addr);
      }
      var t := TargetOf(raw, level);
      if t.Nothing? || addr % Align(t) != 0 {
        return false;
      }
      raw := Cleared(raw, AlignOrder(t), 48) + Bin(addr);
      return true;
    }

    /** Succeeds exactly on valid flags and an aligned address, and then reads back as it was written. */
    method Reinit(addr: nat, flags: seq<Flag>) returns (ok: bool)
      modifies this
      ensures (raw, ok) == Reinited(old(raw), level, addr, flags)
      ensures ok <==> Allowed(level, flags) && addr % Unit(level, flags) == 0
      ensures ok ==> raw == BitsOf(flags) + Bin(addr)
      ensures ok && Narrow(addr) ==>
                Value(raw, 0, 64) == addr + FlagNumber(flags) && TargetOf(raw, level) == KindOf(level, flags, addr)
      ensures !ok && Allowed(level, flags) ==> Value(raw, 0, 64) == FlagNumber(flags)
      ensures !Allowed(level, flags) ==> raw == if flags == [] then {} else old(raw)
    {
      ReinitAccepts(raw, level, addr, flags);
      ReinitNumber(raw, level, addr, flags);
      if ValidFlags(level, flags) && AddrFits(level, flags, addr) && Narrow(addr) {
        ReinitRoundTrip(raw, level, addr, flags, Present);
      }
      var present, pageSize := Present in flags, PageSize in flags;
      var data: Word := {};
      var n := 0;
      while n < |flags|
        invariant n <= |flags| && Defined(level, flags[..n], present, pageSize)
        invariant data == set f | f in flags[..n] :: FlagIdx(f, level, present, pageSize).value
        invariant raw == old(raw)
      {
        var idx := FlagIdx(flags[n], level, present, pageSize);
        if idx.None? {
          return false;
        }
        assert flags[..n + 1] == flags[..n] + [flags[n]];
        data := data + {idx.value};
        n := n + 1;
      }
      assert flags[..|flags|] == flags;
      raw := data;
      ok := SetAddress(addr);
    }
  }
}
