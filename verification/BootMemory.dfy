/** The memory manager used before the buddy system exists. */
module BootMemory {
  import opened Options
  import opened Bits
  import opened Memblock

  /** A range `lo .. hi` inside an extent, as handed out by `Reserve`. */
  datatype Reservation = Reservation(block: Memblock, lo: nat, hi: nat) {
    predicate Has(a: nat) { block.base + lo <= a < block.base + hi }
  }

  // ---------------------------------------------------------------- the state as a value

  datatype Boot = Boot(free: seq<Memblock>, partial: Option<Memblock>, offset: nat, reserved: seq<Memblock>) {

    /** The byte belongs to the memory handed to the manager. */
    predicate Owns(a: nat) {
      Covers(free, a) || InPartial(a) || Covers(reserved, a)
    }

    predicate InPartial(a: nat) {
      partial.Some? && partial.value.Has(a)
    }

    /** The byte may have been handed out. */
    predicate Used(a: nat) {
      Covers(reserved, a) || (partial.Some? && partial.value.base <= a < partial.value.base + offset)
    }

    /** No byte is recorded twice. */
    ghost predicate Exclusive() {
      forall a: nat ::
        && !(Covers(free, a) && Covers(reserved, a))
        && !(InPartial(a) && (Covers(free, a) || Covers(reserved, a)))
    }

    function Extents(): nat {
      |free| + (if partial.Some? then 1 else 0) + |reserved|
    }

    /** What holds until `freeze`. */
    ghost predicate Active() {
      && Canonical(free) && Canonical(reserved) && Exclusive()
      && (partial.Some? ==> partial.value.size > 0 && offset <= partial.value.size && Below(free, partial.value.base))
      && Extents() <= MEMBLOCKS_LEN
    }

    /** What holds after `freeze`. */
    ghost predicate Frozen() {
      partial.None? && Sorted(free) && Sorted(reserved) && Exclusive()
    }

    /** The partial extent is used up and the last free one takes its place. */
    function Retired(): (st: Boot)
      requires partial.Some?
    {
      var n := |free|;
      var reserved' := Inserted(reserved, partial.value);
      if n == 0 then Boot([], None, 0, reserved') else Boot(free[..n - 1], Some(free[n - 1]), 0, reserved')
    }

    /** The partial extent is cut into its used and its unused part. */
    function Cut(): (st: Boot)
      requires partial.Some? && offset <= partial.value.size
    {
      var b := partial.value;
      var rest := Memblock(b.base + offset, b.size - offset);
      Boot(free + [rest], None, offset, Inserted(reserved, Memblock(b.base, offset)))
    }
  }

  predicate Below(s: seq<Memblock>, a: nat) {
    forall i | 0 <= i < |s| :: s[i].End() < a
  }

  /** Extents without a common byte are disjoint, the one non-empty. */
  lemma DisjointBytes(s: seq<Memblock>, b: Memblock)
    requires forall i | 0 <= i < |s| :: s[i].size > 0
    requires b.size > 0 && forall a: nat | b.Has(a) :: !Covers(s, a)
    ensures Disjoint(s, b)
  {
    forall i | 0 <= i < |s|
      ensures s[i].End() <= b.base || b.End() <= s[i].base
    {
      var a := if s[i].base <= b.base then b.base else s[i].base;
      if !(s[i].End() <= b.base || b.End() <= s[i].base) {
        assert s[i].Has(a) && b.Has(a);
        assert Covers(s, a);
      }
    }
  }

  /** Falling over to the next extent keeps every byte and needs no new slot. */
  lemma RetireKeeps(st: Boot)
    requires st.Active() && st.partial.Some?
    ensures !Duplicate(st.reserved, st.partial.value) && |st.reserved| < MEMBLOCKS_LEN
    ensures st.Retired().Active()
    ensures forall a: nat :: st.Retired().Owns(a) == st.Owns(a)
    ensures forall a: nat | st.Used(a) :: st.Retired().Used(a)
  {
    var b, st' := st.partial.value, st.Retired();
    assert forall a: nat | b.Has(a) :: st.InPartial(a);
    DisjointBytes(st.reserved, b);
    InsertCanonical(st.reserved, b);
    PopCovers(st.free);
    assert forall a: nat :: Covers(st.free, a) <==> Covers(st'.free, a) || st'.InPartial(a);
  }

  lemma CoversSnoc(s: seq<Memblock>, last: Memblock)
    ensures forall a: nat :: Covers(s + [last], a) <==> Covers(s, a) || last.Has(a)
  {
    forall a: nat
      ensures Covers(s + [last], a) <==> Covers(s, a) || last.Has(a)
    {
      CoversConcat(s, [last], a);
      assert Covers([last], a) <==> last.Has(a) by { assert [last][0] == last; }
    }
  }

  lemma PopCovers(s: seq<Memblock>)
    requires Canonical(s)
    ensures s != [] ==>
              var last := s[|s| - 1];
              && Canonical(s[..|s| - 1]) && Below(s[..|s| - 1], last.base)
              && forall a: nat ::
                   && (Covers(s, a) <==> Covers(s[..|s| - 1], a) || last.Has(a))
                   && !(Covers(s[..|s| - 1], a) && last.Has(a))
  {
    if s != [] {
      assert s == s[..|s| - 1] + [s[|s| - 1]];
      CoversSnoc(s[..|s| - 1], s[|s| - 1]);
    }
  }

  lemma AppendInsert(s: seq<Memblock>, b: Memblock)
    requires Below(s, b.base)
    ensures Inserted(s, b) == s + [b] && !Duplicate(s, b)
  {
    PivotUnique(s, b.base, |s|);
  }

  /** Inserting an extent a second time is rejected. */
  lemma InsertTwice(s: seq<Memblock>, b: Memblock)
    requires Below(s, b.base)
    ensures Duplicate(s + [b], b) && Inserted(s + [b], b) == s + [b]
  {
    PivotUnique(s + [b], b.base, |s|);
  }

  lemma CutReserved(st: Boot)
    requires st.Active() && st.partial.Some?
    ensures Sorted(st.Cut().reserved) && |st.Cut().reserved| <= MEMBLOCKS_LEN
    ensures forall a: nat :: Covers(st.Cut().reserved, a) <==> st.Used(a)
  {
    var b := st.partial.value;
    var used := Memblock(b.base, st.offset);
    assert forall a: nat | b.Has(a) :: st.InPartial(a);
    DisjointBytes(st.reserved, b);
    if st.offset > 0 {
      InsertCanonical(st.reserved, used);
      CanonicalSorted(Inserted(st.reserved, used));
    } else {
      InsertEmpty(st.reserved, used);
    }
  }

  /** Freezing keeps every byte; what may have been handed out is reserved and the rest is free. */
  lemma CutKeeps(st: Boot)
    requires st.Active() && st.partial.Some?
    ensures st.Cut().Frozen()
    ensures |st.Cut().free| <= MEMBLOCKS_LEN && |st.Cut().reserved| <= MEMBLOCKS_LEN
    ensures forall a: nat :: st.Cut().Owns(a) == st.Owns(a)
    ensures forall a: nat :: Covers(st.Cut().reserved, a) <==> st.Used(a)
    ensures forall a: nat :: Covers(st.Cut().free, a) <==> st.Owns(a) && !st.Used(a)
  {
    var b, st' := st.partial.value, st.Cut();
    var rest := Memblock(b.base + st.offset, b.size - st.offset);
    CutReserved(st);
    CoversSnoc(st.free, rest);
    CanonicalSorted(st.free);
  }

  // ---------------------------------------------------------------- reservations

  /** All reservations lie in used bytes and no two share a byte. */
  ghost predicate GivenApart(st: Boot, given: seq<Reservation>) {
    && (forall i, a: nat | 0 <= i < |given| && given[i].Has(a) :: st.Used(a))
    && (forall i, j, a: nat | 0 <= i < j < |given| && given[i].Has(a) :: !given[j].Has(a))
  }

  /** A later state in which more is used keeps the reservations apart. */
  lemma GivenKept(st: Boot, st': Boot, given: seq<Reservation>)
    requires GivenApart(st, given) && forall a: nat | st.Used(a) :: st'.Used(a)
    ensures GivenApart(st', given)
  {
  }

  /** Bumping the offset hands out bytes that were not used before. */
  lemma GiveOne(st: Boot, given: seq<Reservation>, lo: nat, hi: nat)
    requires st.Active() && st.partial.Some? && GivenApart(st, given)
    requires st.offset <= lo <= hi <= st.partial.value.size
    ensures st.(offset := hi).Active()
    ensures forall a: nat :: st.(offset := hi).Owns(a) == st.Owns(a)
    ensures GivenApart(st.(offset := hi), given + [Reservation(st.partial.value, lo, hi)])
  {
    var st', r := st.(offset := hi), Reservation(st.partial.value, lo, hi);
    assert forall a: nat :: st'.InPartial(a) == st.InPartial(a);
    forall a: nat | r.Has(a)
      ensures st'.Used(a) && !st.Used(a)
    {
      assert st.InPartial(a);
    }
    var given' := given + [r];
    forall i, a: nat | 0 <= i < |given'| && given'[i].Has(a)
      ensures st'.Used(a)
    {
      if i < |given| { assert given[i].Has(a) && st.Used(a); }
    }
    forall i, j, a: nat | 0 <= i < j < |given'| && given'[i].Has(a)
      ensures !given'[j].Has(a)
    {
      assert given[i].Has(a);
    }
  }

  /** The state and the result of a reservation: bump, or fall over to the next extent. */
  function Reserving(st: Boot, size: nat, align: nat): (r: (Boot, Option<nat>))
    requires align > 0
    ensures r.1.Some? ==> r.0.partial.Some?
    decreases |st.free|, st.partial.Some?
  {
    if st.partial.None? then (st, None)
    else
      var lo := NextMultiple(st.offset, align);
      if lo + size > st.partial.value.size then Reserving(st.Retired(), size, align)
      else (st.(offset := lo + size), Some(lo))
  }

  function GivenAfter(st: Boot, given: seq<Reservation>, size: nat, align: nat): seq<Reservation>
    requires align > 0
  {
    var (st', r) := Reserving(st, size, align);
    if r.None? then given else given + [Reservation(st'.partial.value, r.value, r.value + size)]
  }

  /** A reservation keeps every byte and fails exactly when no extent is left. */
  lemma {:induction false} ReservingKeeps(st: Boot, size: nat, align: nat)
    requires st.Active() && align > 0
    ensures Reserving(st, size, align).0.Active()
    ensures forall a: nat :: Reserving(st, size, align).0.Owns(a) == st.Owns(a)
    ensures Reserving(st, size, align).1.None? <==> Reserving(st, size, align).0.partial.None?
    decreases |st.free|, st.partial.Some?
  {
    if st.partial.Some? {
      var lo := NextMultiple(st.offset, align);
      if lo + size > st.partial.value.size {
        RetireKeeps(st);
        ReservingKeeps(st.Retired(), size, align);
      } else {
        GiveOne(st, [], lo, lo + size);
      }
    }
  }

  /** Every reservation takes bytes that no earlier one took. */
  lemma {:induction false} ReservingApart(st: Boot, given: seq<Reservation>, size: nat, align: nat)
    requires st.Active() && GivenApart(st, given) && align > 0
    ensures GivenApart(Reserving(st, size, align).0, GivenAfter(st, given, size, align))
    decreases |st.free|, st.partial.Some?
  {
    if st.partial.Some? {
      var lo := NextMultiple(st.offset, align);
      if lo + size > st.partial.value.size {
        RetireKeeps(st);
        GivenKept(st, st.Retired(), given);
        ReservingApart(st.Retired(), given, size, align);
      } else {
        GiveOne(st, given, lo, lo + size);
      }
    }
  }

  /** The offset handed out is aligned and the piece fits into its extent. */
  lemma {:induction false} ReservingFits(st: Boot, size: nat, align: nat)
    requires align > 0 && Reserving(st, size, align).1.Some?
    ensures var (st', r) := Reserving(st, size, align);
            r.value % align == 0 && r.value + size == st'.offset <= st'.partial.value.size
    decreases |st.free|, st.partial.Some?
  {
    var lo := NextMultiple(st.offset, align);
    if lo + size > st.partial.value.size {
      ReservingFits(st.Retired(), size, align);
    } else {
      NextIsMultiple(st.offset, align);
    }
  }

  // ---------------------------------------------------------------- offsets as addresses

  /** A fresh extent is used from its start. */
  lemma {:induction false} FallOverZero(st: Boot, size: nat, align: nat)
    requires st.offset == 0 && align > 0
    ensures Reserving(st, size, align).1.Some? ==> Reserving(st, size, align).1.value == 0
    decreases |st.free|, st.partial.Some?
  {
    if st.partial.Some? {
      assert NextMultiple(0, align) == 0;
      if size > st.partial.value.size {
        FallOverZero(st.Retired(), size, align);
      }
    }
  }

  /** The reservation fits behind the offset of the partial extent. */
  predicate FitsHere(st: Boot, size: nat, align: nat)
    requires align > 0
  {
    st.partial.Some? && NextMultiple(st.offset, align) + size <= st.partial.value.size
  }

  /** The last extent of the list that is large enough. */
  function LastFit(s: seq<Memblock>, size: nat): Option<Memblock> {
    if s == [] then None
    else if size <= s[|s| - 1].size then Some(s[|s| - 1])
    else LastFit(s[..|s| - 1], size)
  }

  /** The extent that a reservation is going to use: the partial one, or the last free one that is large enough. */
  function Chosen(st: Boot, size: nat, align: nat): Option<Memblock>
    requires align > 0
  {
    if FitsHere(st, size, align) then st.partial else if st.partial.None? then None else LastFit(st.free, size)
  }

  /** A reservation in closed form: whether it succeeds, in which extent, and at which offset. */
  lemma {:induction false} ReservingChosen(st: Boot, size: nat, align: nat)
    requires align > 0
    ensures var (st', r) := Reserving(st, size, align);
            && (r.Some? <==> Chosen(st, size, align).Some?)
            && (r.Some? ==> st'.partial == Chosen(st, size, align))
            && (r.Some? ==> r.value == if FitsHere(st, size, align) then NextMultiple(st.offset, align) else 0)
    decreases |st.free|, st.partial.Some?
  {
    if st.partial.Some? && !FitsHere(st, size, align) {
      ReservingChosen(st.Retired(), size, align);
      assert NextMultiple(0, align) == 0;
    }
  }

  /**
   * What a reservation leaves that does not fit behind the offset. It takes the last free extent that is large enough,
   * the k-th; the extents before stay free, and the bytes of the partial extent and of those passed over are reserved.
   * Without such an extent (k is -1) nothing stays free.
   */
  ghost predicate FellOver(st: Boot, st': Boot, size: nat, k: int) {
    && st.partial.Some? && -1 <= k < |st.free| && (forall j | k < j < |st.free| :: st.free[j].size < size)
    && (if k < 0 then st'.partial == None && st'.free == []
        else st'.partial == Some(st.free[k]) && st'.free == st.free[..k] && st'.offset == size <= st.free[k].size)
    && forall a: nat ::
         Covers(st'.reserved, a) <==>
         Covers(st.reserved, a) || st.partial.value.Has(a) || Covers(st.free[k + 1..], a)
  }

  lemma {:induction false} ReservingFallsOver(st: Boot, size: nat, align: nat) returns (k: int)
    requires st.Active() && align > 0 && st.partial.Some? && !FitsHere(st, size, align)
    ensures FellOver(st, Reserving(st, size, align).0, size, k)
    ensures Reserving(st, size, align).1 == if k < 0 then None else Some(0)
    decreases |st.free|
  {
    var st1, n := st.Retired(), |st.free|;
    RetireKeeps(st);
    RetiredReserves(st);
    assert NextMultiple(0, align) == 0;
    if n == 0 {
      k := -1;
    } else if size <= st.free[n - 1].size {
      k := n - 1;
    } else {
      k := ReservingFallsOver(st1, size, align);
      FellFurther(st, Reserving(st, size, align).0, size, k);
    }
  }

  lemma FellFurther(st: Boot, st': Boot, size: nat, k: int)
    requires st.partial.Some? && |st.free| > 0 && st.free[|st.free| - 1].size < size
    requires forall a: nat :: Covers(st.Retired().reserved, a) <==> Covers(st.reserved, a) || st.partial.value.Has(a)
    requires FellOver(st.Retired(), st', size, k)
    ensures FellOver(st, st', size, k)
  {
    var rest, last := st.Retired().free[k + 1..], st.free[|st.free| - 1];
    assert st.free[k + 1..] == rest + [last];
    CoversSnoc(rest, last);
  }

  lemma RetiredReserves(st: Boot)
    requires st.Active() && st.partial.Some?
    ensures forall a: nat :: Covers(st.Retired().reserved, a) <==> Covers(st.reserved, a) || st.partial.value.Has(a)
  {
    var b := st.partial.value;
    assert forall a: nat | b.Has(a) :: st.InPartial(a);
    DisjointBytes(st.reserved, b);
    InsertCanonical(st.reserved, b);
  }

  /** The number handed out is the address of the piece exactly if the chosen extent starts at address 0. */
  lemma OffsetAsAddress(st: Boot, size: nat, align: nat)
    requires align > 0 && Chosen(st, size, align).Some?
    ensures var (st', r) := Reserving(st, size, align);
            && r.Some?
            && (r.value == st'.partial.value.base + r.value <==> Chosen(st, size, align).value.base == 0)
  {
    ReservingChosen(st, size, align);
  }

  lemma {:induction false} LastFitCovered(s: seq<Memblock>, size: nat)
    requires LastFit(s, size).Some? && forall i | 0 <= i < |s| :: s[i].size > 0
    ensures Covers(s, LastFit(s, size).value.base)
  {
    if size <= s[|s| - 1].size {
      assert s[|s| - 1].Has(s[|s| - 1].base);
    } else {
      LastFitCovered(s[..|s| - 1], size);
      var b := LastFit(s[..|s| - 1], size).value;
      var k :| 0 <= k < |s| - 1 && s[..|s| - 1][k].Has(b.base);
      assert s[k].Has(b.base);
    }
  }

  /** Above the end of the kernel no number handed out is the address of its piece. */
  lemma NeverAnAddress(st: Boot, size: nat, align: nat, kernelEnd: nat)
    requires st.Active() && align > 0 && Chosen(st, size, align).Some?
    requires 0 < kernelEnd && forall a: nat | st.Owns(a) :: kernelEnd <= a
    ensures var (st', r) := Reserving(st, size, align);
            r.Some? && r.value != st'.partial.value.base + r.value
  {
    OffsetAsAddress(st, size, align);
    if FitsHere(st, size, align) {
      assert st.Owns(st.partial.value.base);
    } else {
      LastFitCovered(st.free, size);
      assert st.Owns(Chosen(st, size, align).value.base);
    }
  }

  /** The bytes at the number handed out lie in the chosen extent exactly under these conditions on the state before. */
  lemma OffsetInside(st: Boot, size: nat, align: nat)
    requires align > 0 && size > 0 && Chosen(st, size, align).Some?
    ensures var r := Reserving(st, size, align).1;
            && r.Some?
            && ((forall a: nat | r.value <= a < r.value + size :: Chosen(st, size, align).value.Has(a)) <==>
                if FitsHere(st, size, align) then st.partial.value.base <= NextMultiple(st.offset, align)
                else Chosen(st, size, align).value.base == 0)
  {
    ReservingChosen(st, size, align);
    ReservingFits(st, size, align);
    InsideFromStart(Chosen(st, size, align).value, Reserving(st, size, align).1.value, size);
  }

  lemma InsideFromStart(b: Memblock, lo: nat, size: nat)
    requires size > 0 && lo + size <= b.size
    ensures (forall a: nat | lo <= a < lo + size :: b.Has(a)) <==> b.base <= lo
  {
    if forall a: nat | lo <= a < lo + size :: b.Has(a) {
      assert b.Has(lo);
    }
  }

  /** Read as addresses, two consecutive reservations overlap exactly when the second falls over onto the first. */
  lemma ConsecutiveOffsets(st: Boot, size1: nat, align1: nat, size2: nat, align2: nat)
    requires st.Active() && align1 > 0 && align2 > 0 && size1 > 0 && size2 > 0
    requires Reserving(st, size1, align1).1.Some?
    requires Reserving(Reserving(st, size1, align1).0, size2, align2).1.Some?
    ensures var (st1, r1) := Reserving(st, size1, align1);
            var (st2, r2) := Reserving(st1, size2, align2);
            r1.value + size1 <= r2.value || r2.value + size2 <= r1.value <==>
            NextMultiple(st1.offset, align2) + size2 <= st1.partial.value.size || size2 <= r1.value
  {
    ReservingFits(st, size1, align1);
    var (st1, r1) := Reserving(st, size1, align1);
    if NextMultiple(st1.offset, align2) + size2 > st1.partial.value.size {
      FallOverZero(st1.Retired(), size2, align2);
    }
  }

  /** Two different pieces of memory handed out under the same number. */
  lemma SameOffsetTwice()
    ensures var st := Boot([Memblock(0x20_0000, 0x1000)], Some(Memblock(0x30_0000, 0x1000)), 0, []);
            var (st1, r1) := Reserving(st, 0x1000, 1);
            var (st2, r2) := Reserving(st1, 0x1000, 1);
            st.Active() && r1 == r2 == Some(0) && st1.partial != st2.partial
  {
    var st := Boot([Memblock(0x20_0000, 0x1000)], Some(Memblock(0x30_0000, 0x1000)), 0, []);
    var st1 := Reserving(st, 0x1000, 1).0;
    assert st1 == st.(offset := 0x1000);
    assert st1.Retired().partial == Some(Memblock(0x20_0000, 0x1000));
  }

  /** The first reservation starts at offset 0, and so does every one that opens another extent. */
  ghost predicate Stacked(st: Boot, given: seq<Reservation>) {
    && (forall i: nat | i < |given| && Opens(given, i) :: given[i].lo == 0)
    && (st.partial.Some? ==> if given == [] then st.offset == 0 else given[|given| - 1].block == st.partial.value)
  }

  /** The i-th reservation is the first one in its extent. */
  predicate Opens(given: seq<Reservation>, i: nat)
    requires i < |given|
  {
    i == 0 || given[i].block != given[i - 1].block
  }

  lemma ReservingStacks(st: Boot, given: seq<Reservation>, size: nat, align: nat)
    requires align > 0 && Stacked(st, given)
    ensures Stacked(Reserving(st, size, align).0, GivenAfter(st, given, size, align))
  {
    ReservingChosen(st, size, align);
    if Reserving(st, size, align).1.None? {
      NoneLeft(st, size, align);
    } else {
      var given' := GivenAfter(st, given, size, align);
      assert NextMultiple(0, align) == 0;
      forall i: nat | i < |given'| && Opens(given', i)
        ensures given'[i].lo == 0
      {
        if i < |given| { assert Opens(given, i); }
      }
    }
  }

  lemma {:induction false} NoneLeft(st: Boot, size: nat, align: nat)
    requires align > 0 && Reserving(st, size, align).1.None?
    ensures Reserving(st, size, align).0.partial.None?
    decreases |st.free|, st.partial.Some?
  {
    if st.partial.Some? {
      NoneLeft(st.Retired(), size, align);
    }
  }

  /** Read as addresses, two reservations share no byte. */
  predicate NumbersApart(r: Reservation, r': Reservation) {
    r.hi <= r'.lo || r'.hi <= r.lo
  }

  /** Read as addresses, the reservations of a run are apart exactly if all of them are in one extent. */
  lemma NumbersApartExact(st: Boot, given: seq<Reservation>)
    requires GivenApart(st, given) && Stacked(st, given) && forall i | 0 <= i < |given| :: given[i].lo < given[i].hi
    ensures (forall i, j | 0 <= i < j < |given| :: NumbersApart(given[i], given[j])) <==>
            (forall i, j | 0 <= i < j < |given| :: given[i].block == given[j].block)
  {
    if forall i, j | 0 <= i < j < |given| :: given[i].block == given[j].block {
      forall i, j | 0 <= i < j < |given|
        ensures NumbersApart(given[i], given[j])
      {
        var a := given[i].block.base + if given[i].lo >= given[j].lo then given[i].lo else given[j].lo;
        assert given[i].block == given[j].block;
        if !NumbersApart(given[i], given[j]) { assert given[i].Has(a) && given[j].Has(a); }
      }
    } else {
      var i, j :| 0 <= i < j < |given| && given[i].block != given[j].block;
      var k := BlockChange(given, i, j);
      assert Opens(given, 0) && Opens(given, k);
      assert !NumbersApart(given[0], given[k]);
    }
  }

  lemma {:induction false} BlockChange(given: seq<Reservation>, i: nat, j: nat) returns (k: nat)
    requires i < j < |given| && given[i].block != given[j].block
    ensures i < k <= j && Opens(given, k)
    decreases j
  {
    if given[j].block != given[j - 1].block {
      k := j;
    } else {
      k := BlockChange(given, i, j - 1);
    }
  }

  /** The state and the reservations after requests of a size and an alignment each. */
  function After(st: Boot, script: seq<(nat, nat)>): (Boot, seq<Reservation>)
    requires forall i | 0 <= i < |script| :: script[i].1 > 0
  {
    if script == [] then (st, [])
    else
      var n := |script| - 1;
      var (s, given) := After(st, script[..n]);
      (Reserving(s, script[n].0, script[n].1).0, GivenAfter(s, given, script[n].0, script[n].1))
  }

  /** Every request after the first that succeeds fits behind the offset of the state it meets. */
  predicate AllFit(st: Boot, script: seq<(nat, nat)>)
    requires forall i | 0 <= i < |script| :: script[i].1 > 0
  {
    |script| > 1 ==>
      var n := |script| - 1;
      var s := After(st, script[..n]).0;
      && AllFit(st, script[..n])
      && (Reserving(s, script[n].0, script[n].1).1.Some? ==> FitsHere(s, script[n].0, script[n].1))
  }

  /** What holds after any requests from a fresh state. */
  ghost predicate FreshRun(st: Boot, given: seq<Reservation>) {
    && st.Active() && GivenApart(st, given) && Stacked(st, given)
    && forall i | 0 <= i < |given| :: given[i].lo < given[i].hi
  }

  lemma {:induction false} AfterKeeps(st: Boot, script: seq<(nat, nat)>)
    requires st.Active() && st.offset == 0 && GivenApart(st, [])
    requires forall i | 0 <= i < |script| :: script[i].0 > 0 && script[i].1 > 0
    ensures FreshRun(After(st, script).0, After(st, script).1)
    ensures script != [] && After(st, script).1 == [] ==> After(st, script).0.partial.None?
    decreases |script|
  {
    if script != [] {
      var n := |script| - 1;
      AfterKeeps(st, script[..n]);
      var (s, given) := After(st, script[..n]);
      ReservingKeeps(s, script[n].0, script[n].1);
      ReservingApart(s, given, script[n].0, script[n].1);
      ReservingStacks(s, given, script[n].0, script[n].1);
      if Reserving(s, script[n].0, script[n].1).1.None? {
        NoneLeft(s, script[n].0, script[n].1);
      }
    }
  }

  /** All reservations are in one extent. */
  predicate OneBlock(given: seq<Reservation>) {
    forall i, j | 0 <= i < j < |given| :: given[i].block == given[j].block
  }

  /** One more reservation stays in the extent of the one before exactly if it fits there. */
  lemma FitKeepsBlock(s: Boot, given: seq<Reservation>, size: nat, align: nat)
    requires FreshRun(s, given) && size > 0 && align > 0 && given != [] && Reserving(s, size, align).1.Some?
    ensures var given' := GivenAfter(s, given, size, align);
            |given'| == |given| + 1 && given' == given + [given'[|given|]]
    ensures var given' := GivenAfter(s, given, size, align);
            given'[|given|].block == given[|given| - 1].block <==> FitsHere(s, size, align)
  {
    ReservingChosen(s, size, align);
    if !FitsHere(s, size, align) {
      LastFitListed(s.free, size);
    }
  }

  lemma {:induction false} LastFitListed(s: seq<Memblock>, size: nat)
    ensures LastFit(s, size).Some? ==> LastFit(s, size).value in s
  {
    if s != [] && size > s[|s| - 1].size {
      LastFitListed(s[..|s| - 1], size);
    }
  }

  lemma {:induction false} OneBlockExactly(st: Boot, script: seq<(nat, nat)>)
    requires st.Active() && st.offset == 0 && GivenApart(st, [])
    requires forall i | 0 <= i < |script| :: script[i].0 > 0 && script[i].1 > 0
    ensures OneBlock(After(st, script).1) <==> AllFit(st, script)
    decreases |script|
  {
    if |script| > 1 {
      var n := |script| - 1;
      OneBlockExactly(st, script[..n]);
      AfterKeeps(st, script[..n]);
      var (s, given) := After(st, script[..n]);
      if Reserving(s, script[n].0, script[n].1).1.Some? {
        FitKeepsBlock(s, given, script[n].0, script[n].1);
        BlocksSnoc(given, GivenAfter(s, given, script[n].0, script[n].1)[|given|]);
      }
    } else if |script| == 1 {
      assert After(st, script[..0]).1 == [];
    }
  }

  lemma BlocksSnoc(given: seq<Reservation>, r: Reservation)
    requires given != []
    ensures OneBlock(given + [r]) <==> OneBlock(given) && r.block == given[|given| - 1].block
  {
    var given' := given + [r];
    if OneBlock(given') {
      forall i, j | 0 <= i < j < |given|
        ensures given[i].block == given[j].block
      {
        assert given'[i].block == given'[j].block;
      }
      assert given'[|given| - 1].block == given'[|given|].block;
    }
  }

  /**
   From a fresh state, the numbers returned for a run of requests, read as addresses, belong to ranges that are apart
   exactly if every request after the first that succeeds fits behind the offset of the state it meets.
   */
  lemma NumbersApartFromStart(st: Boot, script: seq<(nat, nat)>)
    requires st.Active() && st.offset == 0 && GivenApart(st, [])
    requires forall i | 0 <= i < |script| :: script[i].0 > 0 && script[i].1 > 0
    ensures var given := After(st, script).1;
            (forall i, j | 0 <= i < j < |given| :: NumbersApart(given[i], given[j])) <==> AllFit(st, script)
  {
    AfterKeeps(st, script);
    OneBlockExactly(st, script);
    NumbersApartExact(After(st, script).0, After(st, script).1);
  }

  // ---------------------------------------------------------------- initialisation

  const UMA_END: nat := 0x4000_0000_0000

  /** An entry of the boot loader's memory map. */
  datatype Area = Area(base: nat, size: nat, available: bool) {
    predicate Has(a: nat) { base <= a < base + size }
  }

  ghost predicate AreasApart(areas: seq<Area>) {
    forall i, j, a: nat | 0 <= i < j < |areas| && areas[i].available && areas[j].available && areas[i].Has(a) ::
      !areas[j].Has(a)
  }

  /** The addresses in the memory map are addresses of the space; areas may reach beyond it. */
  predicate Addresses(areas: seq<Area>, kernelEnd: nat) {
    kernelEnd < UMA_END && forall i | 0 <= i < |areas| :: areas[i].base < UMA_END
  }

  /** Available memory above the end of the kernel. */
  predicate Usable(areas: seq<Area>, kernelEnd: nat, a: nat) {
    a >= kernelEnd && exists i :: 0 <= i < |areas| && areas[i].available && areas[i].Has(a)
  }

  /** `lo` and `hi` are the first byte and the end of the extents, or the start values. */
  ghost predicate Bounds(s: seq<Memblock>, lo: nat, hi: nat) {
    if s == [] then lo == UMA_END - 1 && hi == 0
    else lo < hi && Covers(s, lo) && Covers(s, hi - 1) && forall a: nat | Covers(s, a) :: lo <= a < hi
  }

  /** The free list holds the usable bytes of `areas` between `lo` and `hi`. */
  ghost predicate Loaded(s: seq<Memblock>, areas: seq<Area>, kernelEnd: nat, lo: nat, hi: nat) {
    && Canonical(s) && |s| <= MEMBLOCKS_LEN && Bounds(s, lo, hi)
    && forall a: nat :: Covers(s, a) <==> Usable(areas, kernelEnd, a)
  }

  lemma SkipArea(areas: seq<Area>, i: nat, kernelEnd: nat, s: seq<Memblock>, lo: nat, hi: nat)
    requires i < |areas| && Loaded(s, areas[..i], kernelEnd, lo, hi)
    requires areas[i].available ==> areas[i].size == 0 || areas[i].base + areas[i].size <= kernelEnd
    ensures Loaded(s, areas[..i + 1], kernelEnd, lo, hi)
  {
    UsableSnoc(areas, i, kernelEnd);
  }

  /** Recording the part of one more area above the kernel. */
  lemma LoadBlock(areas: seq<Area>, i: nat, kernelEnd: nat, s: seq<Memblock>, b: Memblock, lo: nat, hi: nat)
    requires i < |areas| && AreasApart(areas) && areas[i].available && b.size > 0 && b.base < UMA_END
    requires Loaded(s, areas[..i], kernelEnd, lo, hi)
    requires forall a: nat :: b.Has(a) <==> areas[i].Has(a) && a >= kernelEnd
    ensures Sorted(s) && !Duplicate(s, b)
    ensures |Inserted(s, b)| <= MEMBLOCKS_LEN ==>
              var lo', hi' := if b.base < lo then b.base else lo, if b.End() > hi then b.End() else hi;
              Loaded(Inserted(s, b), areas[..i + 1], kernelEnd, lo', hi')
    ensures |Inserted(s, b)| <= |s| + (if Grows(s, b) then 1 else 0)
  {
    UsableSnoc(areas, i, kernelEnd);
    NewBlockApart(areas, i, kernelEnd, s, b);
    InsertCanonical(s, b);
    BoundsInsert(s, b, lo, hi);
    CanonicalSorted(s);
  }

  /** The smallest range around the usable bytes. */
  ghost predicate ManagedRange(areas: seq<Area>, kernelEnd: nat, base: nat, size: nat) {
    && size > 0 && Usable(areas, kernelEnd, base) && Usable(areas, kernelEnd, base + size - 1)
    && forall a: nat | Usable(areas, kernelEnd, a) :: base <= a < base + size
  }

  /** The state after `init`: the last extent is the partial one. */
  function Started(s: seq<Memblock>): Boot
    requires s != []
  {
    Boot(s[..|s| - 1], Some(s[|s| - 1]), 0, [])
  }

  /** The manager owns exactly the usable bytes, and none is used yet. */
  ghost predicate StartedFrom(st: Boot, areas: seq<Area>, kernelEnd: nat) {
    forall a: nat :: (st.Owns(a) <==> Usable(areas, kernelEnd, a)) && !st.Used(a)
  }

  lemma LoadedState(s: seq<Memblock>, areas: seq<Area>, kernelEnd: nat, lo: nat, hi: nat)
    requires Loaded(s, areas, kernelEnd, lo, hi) && lo < hi
    ensures s != [] && Started(s).Active() && GivenApart(Started(s), [])
    ensures StartedFrom(Started(s), areas, kernelEnd) && ManagedRange(areas, kernelEnd, lo, hi - lo)
  {
    PopCovers(s);
    var st := Started(s);
    assert st.partial.value == s[|s| - 1];
    assert forall a: nat :: st.Owns(a) <==> Covers(s, a);
  }

  lemma UsableSnoc(areas: seq<Area>, i: nat, kernelEnd: nat)
    requires i < |areas|
    ensures forall a: nat :: Usable(areas[..i + 1], kernelEnd, a) <==>
                             Usable(areas[..i], kernelEnd, a) ||
                               (areas[i].available && areas[i].Has(a) && a >= kernelEnd)
  {
    var pre, all := areas[..i], areas[..i + 1];
    forall a: nat
      ensures Usable(all, kernelEnd, a) <==>
              Usable(pre, kernelEnd, a) || (areas[i].available && areas[i].Has(a) && a >= kernelEnd)
    {
      if Usable(pre, kernelEnd, a) {
        var j :| 0 <= j < |pre| && pre[j].available && pre[j].Has(a);
        assert all[j].available && all[j].Has(a);
      }
      if areas[i].available && areas[i].Has(a) {
        assert all[i].available && all[i].Has(a);
      }
    }
  }

  /** What is left of an area above the kernel overlaps no extent recorded before. */
  lemma NewBlockApart(areas: seq<Area>, i: nat, kernelEnd: nat, s: seq<Memblock>, b: Memblock)
    requires i < |areas| && AreasApart(areas) && areas[i].available && Canonical(s) && b.size > 0
    requires forall a: nat :: Covers(s, a) <==> Usable(areas[..i], kernelEnd, a)
    requires forall a: nat | b.Has(a) :: areas[i].Has(a)
    ensures Disjoint(s, b)
  {
    forall a: nat | b.Has(a)
      ensures !Covers(s, a)
    {
      assert areas[i].Has(a);
    }
    DisjointBytes(s, b);
  }

  lemma BoundsInsert(s: seq<Memblock>, b: Memblock, lo: nat, hi: nat)
    requires Canonical(s) && Disjoint(s, b) && b.size > 0 && b.base < UMA_END && Bounds(s, lo, hi)
    ensures Bounds(Inserted(s, b), if b.base < lo then b.base else lo, if b.End() > hi then b.End() else hi)
  {
    InsertCanonical(s, b);
    assert b.Has(b.base) && b.Has(b.End() - 1);
    assert Covers(Inserted(s, b), b.base);
  }

  // ---------------------------------------------------------------- the manager

  class MemblockSystem {
    const freeBlocks: Memblocks
    const reservedBlocks: Memblocks
    var partialBlock: Option<Memblock>
    var offset: nat
    var managedBase: nat
    var managedSize: nat
    var isFrozen: bool

    ghost var frozen: bool
    /** Everything handed out so far. */
    ghost var given: seq<Reservation>

    ghost function State(): Boot
      reads this, freeBlocks, reservedBlocks
    {
      Boot(freeBlocks.data, partialBlock, offset, reservedBlocks.data)
    }

    ghost predicate Valid()
      reads this, freeBlocks, reservedBlocks
    {
      && freeBlocks != reservedBlocks && !isFrozen
      && (if frozen then State().Frozen() else State().Active())
      && GivenApart(State(), given)
    }

    constructor ()
      ensures fresh(freeBlocks) && fresh(reservedBlocks) && freeBlocks != reservedBlocks
      ensures freeBlocks.data == [] && reservedBlocks.data == []
    {
      freeBlocks := new Memblocks();
      reservedBlocks := new Memblocks();
      partialBlock, offset, managedBase, managedSize, isFrozen := None, 0, 0, 0, false;
      frozen, given := false, [];
    }

    /** Records what is available of one area. `ok` is false when the list overflows. */
    method AddArea(ghost areas: seq<Area>, ghost i: nat, area: Area, kernelEnd: nat, lo: nat, hi: nat)
      returns (ok: bool, lo': nat, hi': nat)
      requires i < |areas| && area == areas[i] && AreasApart(areas) && area.base < UMA_END && kernelEnd < UMA_END
      requires Loaded(freeBlocks.data, areas[..i], kernelEnd, lo, hi)
      modifies freeBlocks
      ensures ok ==> Loaded(freeBlocks.data, areas[..i + 1], kernelEnd, lo', hi')
      ensures ok ==> |freeBlocks.data| <= |old(freeBlocks.data)| + 1
      ensures !ok ==> |old(freeBlocks.data)| == MEMBLOCKS_LEN
    {
      ok, lo', hi' := true, lo, hi;
      if !area.available || area.base + area.size < kernelEnd {
        SkipArea(areas, i, kernelEnd, freeBlocks.data, lo, hi);
        return;
      }
      var block := Memblock(area.base, area.size);
      if block.base < kernelEnd {
        block := Memblock(kernelEnd, block.size - (kernelEnd - block.base));
      }
      if block.size == 0 {
        SkipArea(areas, i, kernelEnd, freeBlocks.data, lo, hi);
        return;
      }
      if block.base < lo { lo' := block.base; }
      if block.base + block.size > hi { hi' := block.base + block.size; }
      LoadBlock(areas, i, kernelEnd, freeBlocks.data, block, lo, hi);
      var r := freeBlocks.Insert(block);
      ok := r != Overflow;
      if ok {
        assert |freeBlocks.data| <= MEMBLOCKS_LEN;
        assert lo' == if block.base < lo then block.base else lo;
        assert hi' == if block.End() > hi then block.End() else hi;
      }
    }

    method LoadAreas(areas: seq<Area>, kernelEnd: nat) returns (ok: bool, lo: nat, hi: nat)
      requires freeBlocks.data == []
      requires AreasApart(areas) && Addresses(areas, kernelEnd)
      modifies freeBlocks
      ensures |areas| <= MEMBLOCKS_LEN ==> ok
      ensures ok ==> Loaded(freeBlocks.data, areas, kernelEnd, lo, hi)
    {
      ok, lo, hi := true, UMA_END - 1, 0;
      for i := 0 to |areas|
        invariant ok && Loaded(freeBlocks.data, areas[..i], kernelEnd, lo, hi) && |freeBlocks.data| <= i
      {
        ok, lo, hi := AddArea(areas, i, areas[i], kernelEnd, lo, hi);
        if !ok {
          return;
        }
      }
      assert areas[..|areas|] == areas;
    }

    /** Takes over the available memory above the end of the kernel. `ok` is false on a panic. */
    method Init(areas: seq<Area>, kernelEnd: nat) returns (ok: bool)
      requires freeBlocks != reservedBlocks && freeBlocks.data == [] && reservedBlocks.data == []
      requires AreasApart(areas) && Addresses(areas, kernelEnd)
      modifies this, freeBlocks
      ensures |areas| <= MEMBLOCKS_LEN && (exists a: nat :: Usable(areas, kernelEnd, a)) ==> ok
      ensures ok ==> Valid() && !frozen && given == [] && offset == 0
      ensures ok ==> StartedFrom(State(), areas, kernelEnd) && ManagedRange(areas, kernelEnd, managedBase, managedSize)
    {
      var lo, hi;
      ok, lo, hi := LoadAreas(areas, kernelEnd);
      if !ok {
        return;
      }
      ghost var s := freeBlocks.data;
      if lo >= hi {
        return false;
      }
      LoadedState(s, areas, kernelEnd, lo, hi);
      partialBlock := freeBlocks.Pop();
      offset := 0;
      managedBase, managedSize := lo, hi - lo;
      isFrozen := false;
      frozen, given := false, [];
      assert State() == Started(s);
    }

    /** Moves the partial extent to the reserved list and takes the next free one. */
    method RetirePartial()
      requires freeBlocks != reservedBlocks && partialBlock.Some? && Sorted(reservedBlocks.data)
      requires |reservedBlocks.data| < MEMBLOCKS_LEN
      modifies `partialBlock, `offset, freeBlocks, reservedBlocks
      ensures State() == old(State()).Retired()
    {
      var _ := reservedBlocks.Insert(partialBlock.value);
      partialBlock := freeBlocks.Pop();
      offset := 0;
    }

    /** Bumps the offset inside the partial extent, or moves on to the next extent. */
    method Bump(size: nat, align: nat) returns (r: Option<nat>)
      requires freeBlocks != reservedBlocks && align > 0 && (partialBlock.Some? ==> State().Active())
      modifies `partialBlock, `offset, freeBlocks, reservedBlocks
      ensures (State(), r) == Reserving(old(State()), size, align)
      decreases |freeBlocks.data|, partialBlock.Some?
    {
      if partialBlock.None? {
        return None;
      }
      ghost var st := State();
      offset := NextMultiple(offset, align);
      var base := offset;
      offset := offset + size;
      if offset > partialBlock.value.size {
        RetireKeeps(st);
        CanonicalSorted(st.reserved);
        RetirePartial();
        assert State() == st.Retired();
        r := Bump(size, align);
      } else {
        r := Some(base);
      }
    }

    /** Reserves `size` bytes. The result is the offset in the extent, not an address. */
    method Reserve(size: nat, align: nat) returns (r: Option<nat>)
      requires Valid() && align > 0
      modifies this, freeBlocks, reservedBlocks
      ensures Valid() && frozen == old(frozen)
      ensures managedBase == old(managedBase) && managedSize == old(managedSize)
      ensures (State(), r) == Reserving(old(State()), size, align)
      ensures given == GivenAfter(old(State()), old(given), size, align)
      ensures forall a: nat :: State().Owns(a) == old(State()).Owns(a)
      ensures old(partialBlock).None? ==> r.None? && State() == old(State())
      ensures FitsHere(old(State()), size, align) ==> State() == old(State()).(offset := State().offset)
      ensures old(partialBlock).Some? && !FitsHere(old(State()), size, align) ==>
                exists k :: FellOver(old(State()), State(), size, k)
    {
      ghost var st := State();
      if !frozen {
        ReservingKeeps(st, size, align);
        ReservingApart(st, given, size, align);
        if st.partial.Some? && !FitsHere(st, size, align) { ghost var k := ReservingFallsOver(st, size, align); }
      }
      r := Bump(size, align);
      given := GivenAfter(st, given, size, align);
    }

    /** Puts an extent above all others into the free list. */
    method AddLast(b: Memblock)
      requires Sorted(freeBlocks.data) && |freeBlocks.data| < MEMBLOCKS_LEN && Below(freeBlocks.data, b.base)
      modifies freeBlocks
      ensures freeBlocks.data == old(freeBlocks.data) + [b]
      ensures Sorted(freeBlocks.data)
    {
      AppendInsert(freeBlocks.data, b);
      var _ := freeBlocks.Insert(b);
    }

    /** The list operations of `freeze`. */
    method CutPartial()
      requires freeBlocks != reservedBlocks && partialBlock.Some? && offset <= partialBlock.value.size
      requires Sorted(freeBlocks.data) && |freeBlocks.data| < MEMBLOCKS_LEN &&
               Below(freeBlocks.data, partialBlock.value.base)
      requires Sorted(reservedBlocks.data) && |reservedBlocks.data| < MEMBLOCKS_LEN
      modifies `partialBlock, freeBlocks, reservedBlocks
      ensures State() == old(State()).Cut()
    {
      var b := partialBlock.value;
      partialBlock := None;
      FreeRest(b);
      var _ := reservedBlocks.Insert(Memblock(b.base, offset));
    }

    /** What is left of the partial extent goes into the free list; an unused one is inserted twice. */
    method FreeRest(b: Memblock)
      requires offset <= b.size && Sorted(freeBlocks.data) && |freeBlocks.data| < MEMBLOCKS_LEN
      requires Below(freeBlocks.data, b.base)
      modifies freeBlocks
      ensures freeBlocks.data == old(freeBlocks.data) + [Memblock(b.base + offset, b.size - offset)]
    {
      ghost var s := freeBlocks.data;
      var rest := Memblock(b.base + offset, b.size - offset);
      if offset == 0 {
        AddLast(b);
        InsertTwice(s, b);
        assert rest == b;
        var again := freeBlocks.Insert(rest);
        assert again == Rejected;
      } else {
        AddLast(rest);
      }
    }

    /** Cuts the partial extent into a free and a reserved part. */
    method Freeze()
      requires Valid()
      modifies this, freeBlocks, reservedBlocks
      ensures Valid() && partialBlock.None? && given == old(given)
      ensures managedBase == old(managedBase) && managedSize == old(managedSize)
      ensures forall a: nat :: State().Owns(a) == old(State()).Owns(a)
      ensures if old(partialBlock).None? then State() == old(State()) && frozen == old(frozen)
              else frozen && old(State()).Active() && State() == old(State()).Cut()
    {
      if partialBlock.None? {
        return;
      }
      ghost var st := State();
      CanonicalSorted(st.free);
      CanonicalSorted(st.reserved);
      CutKeeps(st);
      GivenKept(st, st.Cut(), given);
      CutPartial();
      frozen := true;
    }
  }

  // ---------------------------------------------------------------- runs

  datatype BootCall = Take(size: nat, align: nat) | Stop

  /** The state and the answers of a script of calls, from a state. */
  function Outcome(st: Boot, script: seq<BootCall>): (Boot, seq<Option<nat>>)
    requires forall i | 0 <= i < |script| && script[i].Take? :: script[i].align > 0
  {
    if script == [] then (st, [])
    else
      var n := |script| - 1;
      var (s, results) := Outcome(st, script[..n]);
      match script[n]
      case Take(size, align) => (Reserving(s, size, align).0, results + [Reserving(s, size, align).1])
      case Stop => (FrozenState(s), results + [None])
  }

  /** The state after `freeze`. */
  function FrozenState(st: Boot): Boot {
    if st.partial.Some? && st.offset <= st.partial.value.size then st.Cut() else st
  }

  lemma OutcomeSnoc(st: Boot, script: seq<BootCall>, n: nat)
    requires n < |script| && forall i | 0 <= i < |script| && script[i].Take? :: script[i].align > 0
    ensures var (s, results) := Outcome(st, script[..n]);
            Outcome(st, script[..n + 1]) ==
            match script[n]
            case Take(size, align) => (Reserving(s, size, align).0, results + [Reserving(s, size, align).1])
            case Stop => (FrozenState(s), results + [None])
  {
    assert script[..n + 1][..n] == script[..n];
  }

  /** Every number returned belongs to a recorded reservation of the requested size. */
  ghost predicate Recorded(script: seq<BootCall>, results: seq<Option<nat>>, given: seq<Reservation>) {
    && |results| <= |script|
    && forall i | 0 <= i < |results| && results[i].Some? ::
         script[i].Take? && InGiven(given, results[i].value, script[i].size)
  }

  predicate InGiven(given: seq<Reservation>, lo: nat, size: nat) {
    exists k :: 0 <= k < |given| && given[k].lo == lo && given[k].hi == lo + size
  }

  /** After `freeze` nothing is handed out. */
  ghost predicate NothingAfterStop(script: seq<BootCall>, results: seq<Option<nat>>) {
    |results| <= |script| && forall i, j | 0 <= i < j < |results| && script[i].Stop? :: results[j].None?
  }

  predicate Stopped(script: seq<BootCall>, n: nat)
    requires n <= |script|
  {
    exists i :: 0 <= i < n && script[i].Stop?
  }

  lemma OneMoreResult(script: seq<BootCall>, results: seq<Option<nat>>, given: seq<Reservation>,
                      given': seq<Reservation>, r: Option<nat>)
    requires |results| < |script| && Recorded(script, results, given) && NothingAfterStop(script, results) &&
             given <= given'
    requires r.Some? ==> script[|results|].Take? && InGiven(given', r.value, script[|results|].size)
    requires Stopped(script, |results|) ==> r.None?
    ensures Recorded(script, results + [r], given') && NothingAfterStop(script, results + [r])
  {
    forall i | 0 <= i < |results| && results[i].Some?
      ensures InGiven(given', results[i].value, script[i].size)
    {
      var k :| 0 <= k < |given| && given[k].lo == results[i].value && given[k].hi == results[i].value + script[i].size;
      assert given'[k] == given[k];
    }
  }

  /** What holds after n calls. */
  ghost predicate RanTo(start: Boot, script: seq<BootCall>, n: nat, st: Boot, given: seq<Reservation>,
                        results: seq<Option<nat>>)
    requires n <= |script| && forall i | 0 <= i < |script| && script[i].Take? :: script[i].align > 0
  {
    && Stacked(st, given) && |results| == n && (st, results) == Outcome(start, script[..n])
    && Recorded(script, results, given) && NothingAfterStop(script, results)
    && (Stopped(script, n) ==> st.partial.None?)
  }

  /** What one call does. */
  ghost predicate Answers(st: Boot, given: seq<Reservation>, call: BootCall, st': Boot, given': seq<Reservation>,
                          r: Option<nat>)
    requires call.Take? ==> call.align > 0
  {
    && Stacked(st', given') && given <= given'
    && (r.Some? ==> call.Take? && InGiven(given', r.value, call.size))
    && (st.partial.None? ==> r.None? && st'.partial.None?) && (call.Stop? ==> st'.partial.None?)
    && match call
       case Take(size, align) => (st', r) == Reserving(st, size, align)
       case Stop => st' == FrozenState(st) && r.None?
  }

  lemma RanOneMore(start: Boot, script: seq<BootCall>, n: nat, st: Boot, given: seq<Reservation>,
                   results: seq<Option<nat>>, st': Boot, given': seq<Reservation>, r: Option<nat>)
    requires n < |script| && forall i | 0 <= i < |script| && script[i].Take? :: script[i].align > 0
    requires RanTo(start, script, n, st, given, results) && Answers(st, given, script[n], st', given', r)
    ensures RanTo(start, script, n + 1, st', given', results + [r])
  {
    OneMoreResult(script, results, given, given', r);
    OutcomeSnoc(start, script, n);
  }

  /**
   In every run the manager owns exactly the usable bytes, reservations share no byte, and nothing is handed out after
   `freeze`. State and answers are those of the script. `ok` is false when `init` panics.
   */
  method Run(bmm: MemblockSystem, areas: seq<Area>, kernelEnd: nat, script: seq<BootCall>)
    returns (ok: bool, results: seq<Option<nat>>, ghost start: Boot)
    requires bmm.freeBlocks != bmm.reservedBlocks && bmm.freeBlocks.data == [] && bmm.reservedBlocks.data == []
    requires AreasApart(areas) && Addresses(areas, kernelEnd)
    requires forall i | 0 <= i < |script| && script[i].Take? :: script[i].align > 0
    modifies bmm, bmm.freeBlocks, bmm.reservedBlocks
    ensures |areas| <= MEMBLOCKS_LEN && (exists a: nat :: Usable(areas, kernelEnd, a)) ==> ok
    ensures ok ==> bmm.Valid() && forall a: nat :: bmm.State().Owns(a) <==> Usable(areas, kernelEnd, a)
    ensures ok ==> start.Active() && start.offset == 0 && StartedFrom(start, areas, kernelEnd)
    ensures ok ==> (bmm.State(), results) == Outcome(start, script)
    ensures ok ==> forall i, j, a: nat | 0 <= i < j < |bmm.given| && bmm.given[i].Has(a) :: !bmm.given[j].Has(a)
    ensures ok ==> Stacked(bmm.State(), bmm.given) && |results| == |script|
    ensures ok ==> Recorded(script, results, bmm.given) && NothingAfterStop(script, results)
  {
    results := [];
    ok := bmm.Init(areas, kernelEnd);
    start := bmm.State();
    if !ok {
      return;
    }
    for n := 0 to |script|
      invariant bmm.Valid() && (forall a: nat :: bmm.State().Owns(a) <==> Usable(areas, kernelEnd, a))
      invariant RanTo(start, script, n, bmm.State(), bmm.given, results)
    {
      ghost var st, given := bmm.State(), bmm.given;
      var r := Answer(bmm, script[n]);
      RanOneMore(start, script, n, st, given, results, bmm.State(), bmm.given, r);
      results := results + [r];
    }
    assert script[..|script|] == script;
  }

  method Answer(bmm: MemblockSystem, call: BootCall) returns (r: Option<nat>)
    requires bmm.Valid() && (call.Take? ==> call.align > 0) && Stacked(bmm.State(), bmm.given)
    modifies bmm, bmm.freeBlocks, bmm.reservedBlocks
    ensures bmm.Valid() && (forall a: nat :: bmm.State().Owns(a) == old(bmm.State()).Owns(a))
    ensures Answers(old(bmm.State()), old(bmm.given), call, bmm.State(), bmm.given, r)
  {
    match call {
      case Take(size, align) =>
        ReservingStacks(bmm.State(), bmm.given, size, align);
        r := bmm.Reserve(size, align);
        if r.Some? { assert bmm.given[|bmm.given| - 1].lo == r.value; }
      case Stop =>
        bmm.Freeze();
        r := None;
    }
  }
}
