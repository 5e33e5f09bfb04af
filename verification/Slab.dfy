/** The slab cache: pages cut into slots of one size, with a bitmap per page, on three lists. */
module Slab {
  import opened Options
  import opened Bits
  import opened Sequences

  const SLAB_PAGE: nat := 4096
  /** The offset of the buffer: link (16 bytes), bitmap (64 bytes) and free count (2 bytes) come before it. */
  const BUF_START: nat := 82
  const BUF_SIZE: nat := 4013
  const MAP_BITS: nat := 512

  /** Slots are 8 to 1024 bytes long, and aligned to their size. */
  predicate SlotSize(n: nat) {
    n == 8 || n == 16 || n == 32 || n == 64 || n == 128 || n == 256 || n == 512 || n == 1024
  }

  function SlotsStart(n: nat): nat
    requires SlotSize(n)
  {
    NextMultiple(BUF_START, n) - BUF_START
  }

  function SlotsLen(n: nat): nat
    requires SlotSize(n)
  {
    (BUF_SIZE - SlotsStart(n)) / n
  }

  function SlotAddr(base: nat, n: nat, i: nat): nat
    requires SlotSize(n)
  {
    base + BUF_START + SlotsStart(n) + i * n
  }

  /** `from_elem_ptr` */
  function FromElem(p: nat): nat {
    p - p % SLAB_PAGE
  }

  predicate IsPage(base: nat) {
    0 < base && base % SLAB_PAGE == 0
  }

  lemma LayoutValues(n: nat)
    requires SlotSize(n)
    ensures 2 <= SlotsLen(n) <= MAP_BITS && BUF_START + SlotsStart(n) < SLAB_PAGE
    ensures (BUF_START + SlotsStart(n)) % n == 0
    ensures SlotsStart(n) + SlotsLen(n) * n <= BUF_SIZE
    ensures SLAB_PAGE % n == 0
  {
    FirstSlotStart(n);
  }

  /** Where the first slot of each size starts. */
  lemma FirstSlotStart(n: nat)
    requires SlotSize(n)
    ensures BUF_START + SlotsStart(n) ==
            if n == 8 then 88 else if n <= 32 then 96 else if n <= 128 then 128 else n
  {
  }

  /** A slot lies inside the page behind the metadata, and `from_elem_ptr` finds the page again. */
  lemma SlotInPage(base: nat, n: nat, i: nat)
    requires SlotSize(n) && IsPage(base) && i < SlotsLen(n)
    ensures base + BUF_START <= SlotAddr(base, n, i) &&
            SlotAddr(base, n, i) + n <= base + BUF_START + BUF_SIZE <= base + SLAB_PAGE
    ensures FromElem(SlotAddr(base, n, i)) == base
  {
    LayoutValues(n);
    MulAtLeast(i + 1, SlotsLen(n), n);
    assert (i + 1) * n == i * n + n;
    DivModUnique(SlotAddr(base, n, i), SLAB_PAGE, base / SLAB_PAGE, SlotAddr(base, n, i) - base);
  }

  lemma MultiplesAdd(a: nat, b: nat, n: nat)
    requires 0 < n && a % n == 0 && b % n == 0
    ensures (a + b) % n == 0
  {
    DivModUnique(a + b, n, a / n + b / n, 0);
  }

  lemma MultipleOfPage(base: nat, n: nat)
    requires SlotSize(n) && base % SLAB_PAGE == 0
    ensures base % n == 0
  {
    LayoutValues(n);
    DivModUnique(base, n, base / SLAB_PAGE * (SLAB_PAGE / n), 0);
  }

  lemma SlotAligned(base: nat, n: nat, i: nat)
    requires SlotSize(n) && IsPage(base)
    ensures SlotAddr(base, n, i) % n == 0
  {
    LayoutValues(n);
    MultipleOfPage(base, n);
    DivModUnique(i * n, n, i, 0);
    MultiplesAdd(base, BUF_START + SlotsStart(n), n);
    MultiplesAdd(base + (BUF_START + SlotsStart(n)), i * n, n);
  }

  /** Different slots do not overlap, on one page or on two. */
  lemma SlotsApart(b: nat, i: nat, c: nat, j: nat, n: nat)
    requires SlotSize(n) && IsPage(b) && IsPage(c) && i < SlotsLen(n) && j < SlotsLen(n)
    requires b != c || i != j
    ensures SlotAddr(b, n, i) + n <= SlotAddr(c, n, j) || SlotAddr(c, n, j) + n <= SlotAddr(b, n, i)
  {
    SlotInPage(b, n, i);
    SlotInPage(c, n, j);
    if b == c {
      if i < j {
        MulAtLeast(i + 1, j, n);
      } else {
        MulAtLeast(j + 1, i, n);
      }
    } else {
      PagesApart(b, c);
    }
  }

  lemma PagesApart(b: nat, c: nat)
    requires IsPage(b) && IsPage(c) && b != c
    ensures b + SLAB_PAGE <= c || c + SLAB_PAGE <= b
  {
  }

  // ---------------------------------------------------------------- one slab

  /** The bitmap has a one for every free slot; its bits from the number of slots on are never used. */
  datatype SlabState = SlabState(bitmap: seq<bool>, freeCnt: nat)

  datatype FillLevel = Empty | Partial | Full

  /** The second case of the source binds a new name, so it takes every count but zero. */
  function FillLevelOf(s: SlabState): FillLevel {
    if s.freeCnt == 0 then Empty else Full
  }

  function Ones(bitmap: seq<bool>, n: nat): nat
    requires n <= |bitmap|
  {
    if n == 0 then 0 else Ones(bitmap, n - 1) + if bitmap[n - 1] then 1 else 0
  }

  /** The free count is the number of free slots. */
  predicate Counted(s: SlabState, n: nat)
    requires SlotSize(n)
  {
    |s.bitmap| == MAP_BITS && SlotsLen(n) <= MAP_BITS && s.freeCnt == Ones(s.bitmap, SlotsLen(n))
  }

  lemma {:induction false} OnesUpdate(bitmap: seq<bool>, n: nat, i: nat, value: bool)
    requires n <= |bitmap| && i < |bitmap| && bitmap[i] != value
    ensures Ones(bitmap[i := value], n) == Ones(bitmap, n) + if i < n then (if value then 1 else -1) else 0
  {
    if n > 0 {
      OnesUpdate(bitmap, n - 1, i, value);
    }
  }

  lemma {:induction false} OnesNone(bitmap: seq<bool>, n: nat)
    requires n <= |bitmap|
    ensures Ones(bitmap, n) <= n
    ensures Ones(bitmap, n) == 0 <==> forall i | 0 <= i < n :: !bitmap[i]
    ensures Ones(bitmap, n) == n <==> forall i | 0 <= i < n :: bitmap[i]
  {
    if n > 0 {
      OnesNone(bitmap, n - 1);
    }
  }

  /** The lowest one among the first bits of the map, if there is any. */
  method FirstOne(bitmap: seq<bool>, len: nat) returns (r: Option<nat>)
    requires len <= |bitmap|
    ensures r.None? <==> forall i | 0 <= i < len :: !bitmap[i]
    ensures r.Some? ==> r.value < len && bitmap[r.value] && forall i | 0 <= i < r.value :: !bitmap[i]
  {
    var i := 0;
    while i < len
      invariant i <= len && forall k | 0 <= k < i :: !bitmap[k]
    {
      if bitmap[i] {
        return Some(i);
      }
      i := i + 1;
    }
    return None;
  }

  datatype Taken = NoSlot | Slot(idx: nat) | OutOfBounds(idx: nat)

  /** The slot is the lowest free one. The access to it panics if the index is not below the slot SIZE. */
  method SlabReserve(s: SlabState, n: nat) returns (s': SlabState, t: Taken)
    requires SlotSize(n) && Counted(s, n)
    ensures Counted(s', n)
    ensures t.NoSlot? <==> s.freeCnt == 0
    ensures t.NoSlot? ==> s' == s
    ensures !t.NoSlot? ==>
              && t.idx < SlotsLen(n) && s.bitmap[t.idx] && (forall i | 0 <= i < t.idx :: !s.bitmap[i])
              && s'.bitmap == s.bitmap[t.idx := false] && s'.freeCnt == s.freeCnt - 1
    ensures t.OutOfBounds? <==> s.freeCnt != 0 && forall i | 0 <= i < n && i < SlotsLen(n) :: !s.bitmap[i]
  {
    if s.freeCnt == 0 {
      return s, NoSlot;
    }
    OnesNone(s.bitmap, SlotsLen(n));
    var r := FirstOne(s.bitmap, SlotsLen(n));
    OnesUpdate(s.bitmap, SlotsLen(n), r.value, false);
    s' := SlabState(s.bitmap[r.value := false], s.freeCnt - 1);
    t := if r.value < n then Slot(r.value) else OutOfBounds(r.value);
  }

  /** Gives back a slot. `ok` is false when the assertion fires that some slot is free already; nothing changes then. */
  method SlabFree(s: SlabState, n: nat, base: nat, p: nat, ghost i: nat) returns (ok: bool, s': SlabState)
    requires SlotSize(n) && Counted(s, n) && i < SlotsLen(n) && !s.bitmap[i] && p == SlotAddr(base, n, i)
    ensures ok <==> s.freeCnt > 0
    ensures Counted(s', n) && s' == if ok then SlabState(s.bitmap[i := true], s.freeCnt + 1) else s
  {
    if s.freeCnt == 0 {
      return false, s;
    }
    LayoutValues(n);
    DivModUnique(p - (base + BUF_START + SlotsStart(n)), n, i, 0);
    var idx := (p - (base + BUF_START + SlotsStart(n))) / n;
    OnesUpdate(s.bitmap, SlotsLen(n), idx, true);
    return true, SlabState(s.bitmap[idx := true], s.freeCnt + 1);
  }

  /** A new slab: every slot is free. */
  function NewSlab(n: nat): SlabState
    requires SlotSize(n)
  {
    SlabState(seq(MAP_BITS, i => true), SlotsLen(n))
  }

  /** A slab of which the first slot was taken. */
  function UsedSlab(n: nat): SlabState
    requires SlotSize(n)
  {
    LayoutValues(n);
    SlabState(seq(MAP_BITS, i => true)[0 := false], SlotsLen(n) - 1)
  }

  lemma NewCounted(n: nat)
    requires SlotSize(n)
    ensures Counted(NewSlab(n), n) && Counted(UsedSlab(n), n)
  {
    LayoutValues(n);
    OnesNone(NewSlab(n).bitmap, SlotsLen(n));
    OnesUpdate(NewSlab(n).bitmap, SlotsLen(n), 0, false);
  }

  // ---------------------------------------------------------------- the cache

  /** The addresses of the first slots of the listed slabs. */
  ghost function FirstSlots(list: seq<nat>, n: nat): set<nat>
    requires SlotSize(n)
  {
    set b | b in list :: SlotAddr(b, n, 0)
  }

  /** Every slab is on exactly one list. */
  ghost predicate OnOneList(slabs: map<nat, SlabState>, empty: seq<nat>, partial: seq<nat>, full: seq<nat>) {
    && NoDup(empty) && NoDup(partial) && NoDup(full)
    && (forall b | b in empty :: b !in partial && b !in full)
    && (forall b | b in partial :: b !in full)
    && (forall b: nat :: b in slabs <==> b in empty || b in partial || b in full)
  }

  /** On the full list exactly the first slot of a slab is live; on the other lists none is. */
  ghost predicate Filled(n: nat, slabs: map<nat, SlabState>, empty: seq<nat>, partial: seq<nat>, full: seq<nat>)
    requires SlotSize(n)
  {
    && (forall b | b in slabs :: IsPage(b))
    && (forall b | b in slabs && (b in empty || b in partial) :: slabs[b] == NewSlab(n))
    && (forall b | b in slabs && b in full :: slabs[b] == UsedSlab(n))
  }

  lemma TakeFirst(s: SlabState, n: nat, t: Taken, after: SlabState)
    requires SlotSize(n) && s == NewSlab(n) && !t.NoSlot? && t.idx < |s.bitmap|
    requires forall i | 0 <= i < t.idx :: !s.bitmap[i]
    requires after == SlabState(s.bitmap[t.idx := false], s.freeCnt - 1)
    ensures t.idx == 0 && after == UsedSlab(n) && FillLevelOf(s).Full? && FillLevelOf(after).Full?
  {
    LayoutValues(n);
    assert s.bitmap[0];
  }

  lemma GiveFirst(s: SlabState, n: nat, after: SlabState)
    requires SlotSize(n) && s == UsedSlab(n) && after == SlabState(s.bitmap[0 := true], s.freeCnt + 1)
    ensures after == NewSlab(n) && FillLevelOf(s).Full? && FillLevelOf(after).Full?
  {
    LayoutValues(n);
    assert s.bitmap[0 := true] == NewSlab(n).bitmap;
  }

  lemma FirstSlotsApart(b: nat, c: nat, n: nat)
    requires SlotSize(n)
    ensures SlotAddr(b, n, 0) == SlotAddr(c, n, 0) <==> b == c
  {
  }

  lemma FirstSlotsPush(full: seq<nat>, b: nat, n: nat)
    requires SlotSize(n) && b !in full
    ensures FirstSlots([b] + full, n) == FirstSlots(full, n) + {SlotAddr(b, n, 0)} &&
            SlotAddr(b, n, 0) !in FirstSlots(full, n)
  {
    forall c: nat
      ensures SlotAddr(b, n, 0) == SlotAddr(c, n, 0) <==> b == c
    {
      FirstSlotsApart(b, c, n);
    }
    assert forall c: nat :: c in [b] + full <==> c == b || c in full;
  }

  lemma FirstSlotsRemove(full: seq<nat>, rest: seq<nat>, b: nat, n: nat)
    requires SlotSize(n) && b in full && forall c: nat :: c in rest <==> c in full && c != b
    ensures FirstSlots(rest, n) == FirstSlots(full, n) - {SlotAddr(b, n, 0)}
  {
    forall c: nat
      ensures SlotAddr(b, n, 0) == SlotAddr(c, n, 0) <==> b == c
    {
      FirstSlotsApart(b, c, n);
    }
  }

  lemma PopFront(s: seq<nat>, b: nat, rest: seq<nat>)
    requires NoDup(s) && s == [b] + rest
    ensures NoDup(rest) && b !in rest && forall c: nat :: c in s <==> c == b || c in rest
  {
    assert rest == s[1..];
    forall k | 0 <= k < |rest|
      ensures rest[k] != b
    {
      assert s[k + 1] == rest[k] && s[0] == b;
    }
  }

  lemma PushFront(s: seq<nat>, b: nat)
    requires NoDup(s) && b !in s
    ensures NoDup([b] + s) && forall c: nat :: c in [b] + s <==> c == b || c in s
  {
    NoDupAppend([b], s);
  }

  /** Moving a slab from the front of its list to the full list, with its first slot taken. */
  lemma TakenInOrder(n: nat, slabs: map<nat, SlabState>, empty: seq<nat>, partial: seq<nat>, full: seq<nat>,
                     b: nat, empty': seq<nat>, partial': seq<nat>)
    requires SlotSize(n) && OnOneList(slabs, empty, partial, full) && Filled(n, slabs, empty, partial, full)
    requires (partial == [b] + partial' && empty == empty') || (empty == [b] + empty' && partial == partial')
    ensures b !in full
    ensures OnOneList(slabs[b := UsedSlab(n)], empty', partial', [b] + full)
    ensures Filled(n, slabs[b := UsedSlab(n)], empty', partial', [b] + full)
  {
    if partial == [b] + partial' && empty == empty' {
      PopFront(partial, b, partial');
    } else {
      PopFront(empty, b, empty');
    }
    PushFront(full, b);
  }

  lemma GivenLists(slabs: map<nat, SlabState>, empty: seq<nat>, partial: seq<nat>, full: seq<nat>, b: nat,
                   rest: seq<nat>, s: SlabState)
    requires OnOneList(slabs, empty, partial, full) && b in full
    requires NoDup(rest) && forall c: nat :: c in rest <==> c in full && c != b
    ensures OnOneList(slabs[b := s], empty, [b] + partial, rest)
  {
    PushFront(partial, b);
  }

  lemma GivenFilled(n: nat, slabs: map<nat, SlabState>, empty: seq<nat>, partial: seq<nat>, full: seq<nat>, b: nat,
                    rest: seq<nat>)
    requires SlotSize(n) && OnOneList(slabs, empty, partial, full) && Filled(n, slabs, empty, partial, full) &&
             b in full
    requires forall c: nat :: c in rest <==> c in full && c != b
    ensures Filled(n, slabs[b := NewSlab(n)], empty, [b] + partial, rest)
  {
    assert forall c | c in [b] + partial :: c == b || c in partial;
  }

  /** Moving a slab from the full list to the partial list, with its slot given back. */
  lemma GivenInOrder(n: nat, slabs: map<nat, SlabState>, empty: seq<nat>, partial: seq<nat>, full: seq<nat>, b: nat)
    requires SlotSize(n) && OnOneList(slabs, empty, partial, full) && Filled(n, slabs, empty, partial, full) &&
             b in full
    ensures OnOneList(slabs[b := NewSlab(n)], empty, [b] + partial, Remove(full, b))
    ensures Filled(n, slabs[b := NewSlab(n)], empty, [b] + partial, Remove(full, b))
  {
    RemoveOne(full, b);
    GivenLists(slabs, empty, partial, full, b, Remove(full, b), NewSlab(n));
    GivenFilled(n, slabs, empty, partial, full, b, Remove(full, b));
  }

  /** Each live slot keeps a page of its own. */
  lemma {:induction false} OnePagePerSlot(full: seq<nat>, n: nat)
    requires SlotSize(n) && NoDup(full)
    ensures |FirstSlots(full, n)| == |full|
  {
    if full == [] {
      assert FirstSlots(full, n) == {};
    } else {
      assert full == [full[0]] + full[1..];
      PopFront(full, full[0], full[1..]);
      OnePagePerSlot(full[1..], n);
      FirstSlotsPush(full[1..], full[0], n);
    }
  }

  /** The free counts are right, and a bit is clear exactly if its slot is live. */
  lemma BitmapsExact(n: nat, slabs: map<nat, SlabState>, empty: seq<nat>, partial: seq<nat>, full: seq<nat>, b: nat,
                     i: nat)
    requires SlotSize(n) && OnOneList(slabs, empty, partial, full) && Filled(n, slabs, empty, partial, full)
    requires b in slabs && i < SlotsLen(n)
    ensures Counted(slabs[b], n)
    ensures !slabs[b].bitmap[i] <==> SlotAddr(b, n, i) in FirstSlots(full, n)
  {
    LayoutValues(n);
    NewCounted(n);
    if SlotAddr(b, n, i) in FirstSlots(full, n) {
      var c :| c in full && SlotAddr(b, n, i) == SlotAddr(c, n, 0);
      SlotInPage(b, n, i);
      SlotInPage(c, n, 0);
      SlotIndexUnique(b, n, i);
    }
  }

  lemma SlotIndexUnique(b: nat, n: nat, i: nat)
    requires SlotSize(n) && SlotAddr(b, n, i) == SlotAddr(b, n, 0)
    ensures i == 0
  {
    if i > 0 {
      MulAtLeast(1, i, n);
    }
  }

  /** Live slots are aligned, inside the page of a slab of the cache, found again by `from_elem_ptr`, and apart. */
  lemma LiveSlots(n: nat, slabs: map<nat, SlabState>, empty: seq<nat>, partial: seq<nat>, full: seq<nat>, p: nat,
                  q: nat)
    requires SlotSize(n) && OnOneList(slabs, empty, partial, full) && Filled(n, slabs, empty, partial, full)
    requires p in FirstSlots(full, n) && q in FirstSlots(full, n)
    ensures p % n == 0 && FromElem(p) in slabs
    ensures FromElem(p) + BUF_START <= p && p + n <= FromElem(p) + SLAB_PAGE
    ensures p != q ==> (p + n <= q || q + n <= p) && FromElem(p) != FromElem(q)
  {
    var b :| b in full && p == SlotAddr(b, n, 0);
    var c :| c in full && q == SlotAddr(c, n, 0);
    LayoutValues(n);
    SlotAligned(b, n, 0);
    SlotInPage(b, n, 0);
    SlotInPage(c, n, 0);
    if p != q {
      SlotsApart(b, 0, c, 0, n);
    }
  }

  /** The first page of the partial list, or else of the empty list, is the first of both together. */
  lemma SpareTail(partial: seq<nat>, empty: seq<nat>)
    requires partial != [] || empty != []
    ensures var b := if partial != [] then partial[0] else empty[0]; (partial + empty)[0] == b
    ensures (partial + empty)[1..] == if partial != [] then partial[1..] + empty else partial + empty[1..]
  {
  }

  class Cache {
    const size: nat
    /** The slabs in memory, by the address of their page. */
    var slabs: map<nat, SlabState>
    var empty: seq<nat>
    var partial: seq<nat>
    var full: seq<nat>
    /** The slots that were handed out and not given back. */
    ghost var live: set<nat>

    ghost predicate Valid()
      reads this
    {
      && SlotSize(size) && OnOneList(slabs, empty, partial, full) && Filled(size, slabs, empty, partial, full)
      && live == FirstSlots(full, size)
    }

    constructor (size: nat)
      requires SlotSize(size)
      ensures Valid() && this.size == size && live == {} && slabs == map[]
    {
      this.size, slabs, empty, partial, full, live := size, map[], [], [], [], {};
    }

    /** Take a slot from a slab that has one; only if there is no such slab a new page is needed. */
    method Reserve(page: Option<nat>) returns (r: Option<nat>)
      requires Valid()
      requires page.Some? ==> IsPage(page.value) && page.value !in slabs
      modifies this
      ensures Valid()
      ensures r.None? <==> old(partial) == [] && old(empty) == [] && page.None?
      ensures r.None? ==> live == old(live)
      ensures r.Some? ==> r.value !in old(live) && live == old(live) + {r.value}
      ensures |full| == |old(full)| + if r.Some? then 1 else 0
      ensures old(partial) != [] || old(empty) != [] ==> slabs.Keys == old(slabs).Keys
      ensures r.None? ==> partial == old(partial) && empty == old(empty)
      ensures r.Some? ==>
                var spare := if old(partial + empty) != [] then old(partial + empty) else [page.value];
                r.value == SlotAddr(spare[0], size, 0) && partial + empty == spare[1..]
    {
      if partial == [] && empty == [] {
        if page.None? {
          return None;
        }
        AddSlab(page.value);
      }
      SpareTail(partial, empty);
      r := TakeSlot();
    }

    /** Put a new slab on the empty list. */
    method AddSlab(page: nat)
      requires Valid() && IsPage(page) && page !in slabs && partial == [] && empty == []
      modifies this
      ensures Valid() && empty == [page] && partial == [] && full == old(full) && live == old(live)
    {
      slabs := slabs[page := NewSlab(size)];
      empty := [page] + empty;
    }

    /** Take a slot from the first slab of the partial list, or else of the empty list. */
    method TakeSlot() returns (r: Option<nat>)
      requires Valid() && (partial != [] || empty != [])
      modifies this
      ensures Valid() && r.Some? && r.value !in old(live) && live == old(live) + {r.value}
      ensures full == [old(if partial != [] then partial[0] else empty[0])] + old(full) && slabs.Keys == old(slabs).Keys
      ensures r.value == SlotAddr(full[0], size, 0)
      ensures if old(partial) != [] then partial == old(partial)[1..] && empty == old(empty)
              else partial == old(partial) && empty == old(empty)[1..]
    {
      var b := if partial != [] then partial[0] else empty[0];
      assert b in slabs by {
        assert b in partial || b in empty;
      }
      NewCounted(size);
      LayoutValues(size);
      var wasEmpty := FillLevelOf(slabs[b]).Empty?;
      var s, t := SlabReserve(slabs[b], size);
      TakeFirst(slabs[b], size, t, s);
      assert t.Slot?;
      var rest := if partial != [] then partial[1..] else empty[1..];
      ghost var restEmpty := if partial != [] then empty else rest;
      ghost var restPartial := if partial != [] then rest else partial;
      TakenInOrder(size, slabs, empty, partial, full, b, restEmpty, restPartial);
      FirstSlotsPush(full, b, size);
      var isFull := FillLevelOf(s).Full?;
      r := Some(SlotAddr(b, size, t.idx));
      var e, q, f := empty, partial, full;
      if wasEmpty || isFull {
        if partial != [] {
          q := rest;
        } else {
          e := rest;
        }
        if isFull {
          f := [b] + f;
        } else {
          q := [b] + q;
        }
      }
      slabs, empty, partial, full := slabs[b := s], e, q, f;
      live := live + {r.value};
    }

    /** Give back a live slot. The slab is found by its page and taken off the list it is on. */
    method Free(p: nat)
      requires Valid() && p in live
      modifies this
      ensures Valid() && live == old(live) - {p} && slabs.Keys == old(slabs).Keys
      ensures |full| == |old(full)| - 1 && empty == old(empty) && partial == [FromElem(p)] + old(partial)
    {
      NewCounted(size);
      LayoutValues(size);
      ghost var c :| c in full && p == SlotAddr(c, size, 0);
      SlotInPage(c, size, 0);
      var b := FromElem(p);
      GivenInOrder(size, slabs, empty, partial, full, b);
      var wasFull := FillLevelOf(slabs[b]).Full?;
      var ok, s := SlabFree(slabs[b], size, b, p, 0);
      assert ok;
      GiveFirst(slabs[b], size, s);
      RemoveOne(full, b);
      FirstSlotsRemove(full, Remove(full, b), b, size);
      var isEmpty := FillLevelOf(s).Empty?;
      var e, q, f := empty, partial, full;
      if isEmpty || wasFull {
        if wasFull {
          f := Remove(f, b);
        } else {
          q := Remove(q, b);
        }
        if isEmpty {
          e := [b] + e;
        } else {
          q := [b] + q;
        }
      }
      slabs, empty, partial, full := slabs[b := s], e, q, f;
      live := live - {p};
    }
  }

  // ---------------------------------------------------------------- runs

  /** A request, with the page that the page allocator would return, or the return of the k-th held slot. */
  datatype Call = Get(page: Option<nat>) | GiveBack(k: nat)

  /** The cache as a stack: the pages with free slots, and the slots that are held. */
  datatype Stack = Stack(spare: seq<nat>, held: seq<nat>)

  /** The page is not in the cache. Used only if every page of the cache has a held slot. */
  predicate IsNew(held: seq<nat>, page: nat) {
    IsPage(page) && forall k | 0 <= k < |held| :: FromElem(held[k]) != page
  }

  /** One call: the last page that became spare is used first, and of every page only the first slot. */
  function Next(s: Stack, call: Call, n: nat): Stack
    requires SlotSize(n)
  {
    match call
    case Get(page) =>
      if s.spare != [] then Stack(s.spare[1..], [SlotAddr(s.spare[0], n, 0)] + s.held)
      else if page.Some? && IsNew(s.held, page.value) then Stack([], [SlotAddr(page.value, n, 0)] + s.held)
      else s
    case GiveBack(k) =>
      if k < |s.held| then Stack([FromElem(s.held[k])] + s.spare, Remove(s.held, s.held[k])) else s
  }

  function After(s: Stack, calls: seq<Call>, n: nat): Stack
    requires SlotSize(n)
  {
    if calls == [] then s else Next(After(s, calls[..|calls| - 1], n), calls[|calls| - 1], n)
  }

  /** Without spare pages, the pages of the cache are those of the held slots. */
  lemma PagesAreHeld(c: Cache, held: seq<nat>, page: nat)
    requires c.Valid() && Holds(c, held) && c.partial == [] && c.empty == []
    ensures IsPage(page) && page !in c.slabs <==> IsNew(held, page)
  {
    if page in c.slabs {
      assert SlotAddr(page, c.size, 0) in held;
      SlotInPage(page, c.size, 0);
    }
    forall k | 0 <= k < |held|
      ensures FromElem(held[k]) in c.slabs
    {
      assert held[k] in held;
      var b :| b in c.full && held[k] == SlotAddr(b, c.size, 0);
      SlotInPage(b, c.size, 0);
    }
  }

  ghost predicate Holds(c: Cache, held: seq<nat>)
    reads c
  {
    NoDup(held) && forall p: nat :: p in held <==> p in c.live
  }

  /**
   In every run the held slots are aligned and apart, and each keeps a page of its own. The slots and the spare pages
   are those of the stack.
   */
  method Run(c: Cache, calls: seq<Call>) returns (held: seq<nat>)
    requires c.Valid() && c.live == {}
    modifies c
    ensures c.Valid() && Holds(c, held) && |c.full| == |c.live|
    ensures Stack(c.partial + c.empty, held) == After(Stack(old(c.partial + c.empty), []), calls, c.size)
    ensures forall k | 0 <= k < |held| :: held[k] % c.size == 0 && FromElem(held[k]) in c.slabs
    ensures forall j, k | 0 <= j < k < |held| :: held[j] + c.size <= held[k] || held[k] + c.size <= held[j]
  {
    held := [];
    for n := 0 to |calls|
      invariant c.Valid() && Holds(c, held)
      invariant Stack(c.partial + c.empty, held) == After(Stack(old(c.partial + c.empty), []), calls[..n], c.size)
    {
      assert calls[..n + 1][..n] == calls[..n];
      held := Answer(c, held, calls[n]);
    }
    assert calls[..|calls|] == calls;
    OnePagePerSlot(c.full, c.size);
    forall j, k | 0 <= j < |held| && 0 <= k < |held|
      ensures held[j] % c.size == 0 && FromElem(held[j]) in c.slabs
      ensures held[j] != held[k] ==> held[j] + c.size <= held[k] || held[k] + c.size <= held[j]
    {
      assert held[j] in held && held[k] in held;
      LiveSlots(c.size, c.slabs, c.empty, c.partial, c.full, held[j], held[k]);
    }
  }

  method Answer(c: Cache, held: seq<nat>, call: Call) returns (held': seq<nat>)
    requires c.Valid() && Holds(c, held)
    modifies c
    ensures c.Valid() && Holds(c, held')
    ensures Stack(c.partial + c.empty, held') == Next(Stack(old(c.partial + c.empty), held), call, c.size)
  {
    match call {
      case Get(page) =>
        if page.Some? && c.partial == [] && c.empty == [] { PagesAreHeld(c, held, page.value); }
        var r := c.Reserve(if page.Some? && IsPage(page.value) && page.value !in c.slabs then page else None);
        if r.Some? {
          PushFront(held, r.value);
          return [r.value] + held;
        }
      case GiveBack(k) =>
        if k < |held| {
          RemoveOne(held, held[k]);
          c.Free(held[k]);
          return Remove(held, held[k]);
        }
    }
    return held;
  }
}
