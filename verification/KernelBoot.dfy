/** From the boot loader's memory map to runs of page allocation. */
module KernelBoot {
  import opened Options
  import Bits
  import AddrRange
  import opened Memblock
  import opened BootMemory
  import opened BuddyForest
  import Buddy
  import opened FreePieces
  import opened PhysicalMemory
  import opened HandOver
  import PhysicalRuns

  /** The memory map lies in the address space. */
  predicate InSpace(areas: seq<Area>, kernelEnd: nat) {
    Addresses(areas, kernelEnd) && forall i | 0 <= i < |areas| :: areas[i].base + areas[i].size <= UMA_END
  }

  /** The state of the boot allocator after `init` is one that the hand-over starts from. */
  lemma InitIsReady(st: Boot, areas: seq<Area>, kernelEnd: nat, base: nat, size: nat)
    requires st.Active() && StartedFrom(st, areas, kernelEnd) && ManagedRange(areas, kernelEnd, base, size)
    requires InSpace(areas, kernelEnd)
    ensures Ready(st, base, size)
  {
    var i :| 0 <= i < |areas| && areas[i].available && areas[i].Has(base + size - 1);
    assert areas[i].base + areas[i].size <= UMA_END;
  }

  /** The boot state `st` that the memory map gives, and the frames of the smallest range around its usable bytes. */
  ghost predicate Booted(areas: seq<Area>, kernelEnd: nat, st: Boot, base: nat, len: nat) {
    && st.Active() && st.offset == 0 && StartedFrom(st, areas, kernelEnd) && len > 0
    && exists mb, ms :: ManagedRange(areas, kernelEnd, mb, ms) && ManagedFrames(mb, ms) == (base, len)
  }

  /** There is only one smallest range, so that base and length are determined by the memory map. */
  lemma ManagedOnce(areas: seq<Area>, kernelEnd: nat, mb: nat, ms: nat, mb': nat, ms': nat)
    requires ManagedRange(areas, kernelEnd, mb, ms) && ManagedRange(areas, kernelEnd, mb', ms')
    ensures mb == mb' && ms == ms'
  {
  }

  lemma ManagedNotEmpty(base: nat, size: nat)
    requires size > 0 && base + size <= UMA_END
    ensures ManagedFrames(base, size).1 > 0
  {
    ManagedFramesCover(base, size);
  }

  /**
   From the memory map to the record of frames. `loaded` says that `init` did not panic, which it does not for at most
   128 areas and some usable byte. After that the record is built exactly if both tables fit, and it is in order with
   exactly the whole frames of the frozen free list free, if and only if every extent of that list is eligible.
   */
  method Start(areas: seq<Area>, kernelEnd: nat)
    returns (pmr: Option<PhysicalMemoryRecord>, free: seq<Memblock>, framesAt: nat, forestAt: nat,
             ghost loaded: bool, ghost st: Boot, ghost base: nat, ghost len: nat)
    requires AreasApart(areas) && InSpace(areas, kernelEnd)
    ensures |areas| <= MEMBLOCKS_LEN && (exists a: nat :: Usable(areas, kernelEnd, a)) ==> loaded
    ensures loaded ==> Booted(areas, kernelEnd, st, base, len)
    ensures pmr.Some? <==> loaded && TablesFit(st, len)
    ensures pmr.Some? ==>
              && fresh(pmr.value.buddy) && fresh(pmr.value.buddy.forest.buf) && fresh(pmr.value.frames)
              && free == FrozenFree(st, len) && (framesAt, forestAt) == TablesAt(st, len)
              && HandedOver(pmr.value, free, base, len)
  {
    var bmm := new MemblockSystem();
    var ok := bmm.Init(areas, kernelEnd);
    st, loaded, base, len := bmm.State(), ok, 0, 0;
    pmr, free, framesAt, forestAt := None, [], 0, 0;
    if ok {
      InitIsReady(st, areas, kernelEnd, bmm.managedBase, bmm.managedSize);
      ManagedNotEmpty(bmm.managedBase, bmm.managedSize);
      base, len := ManagedFrames(bmm.managedBase, bmm.managedSize).0, ManagedFrames(bmm.managedBase, bmm.managedSize).1;
      pmr, framesAt, forestAt := New(bmm);
      free := bmm.freeBlocks.data;
    }
  }

  /** Every byte of a block of managed frames is available memory above the kernel. */
  lemma HeldIsUsable(areas: seq<Area>, kernelEnd: nat, st: Boot, base: nat, len: nat, b: Block, h: PhysicalRuns.Held,
                     a: nat)
    requires Booted(areas, kernelEnd, st, base, len) && TablesFit(st, len)
    requires Frames(b) <= WholeFrames(FrozenFree(st, len), base, len) && PhysicalRuns.IsRange(h, base, b) && h.Has(a)
    ensures Usable(areas, kernelEnd, a) && !AfterTables(st, len).Used(a)
    ensures TablesApart(st, len, base) ==> !InTables(st, len, a)
  {
    PhysicalRuns.InHeldFrames(base, b, h, a);
    var f := (a - base) / FRAME_SIZE;
    assert InFrame(base, f, a);
    HandedFramesUnused(st, len, base, f, a);
  }

  /** The byte is written as part of one of the two tables. */
  predicate InTables(st: Boot, len: nat, a: nat)
    requires TablesFit(st, len)
  {
    var (framesAt, forestAt) := TablesAt(st, len);
    framesAt <= a < framesAt + RECORD_SIZE * len || forestAt <= a < forestAt + ForestBytes(len)
  }

  /** Every frame that is handed over starts at or above the end of the tables. */
  predicate FramesAboveTables(st: Boot, len: nat, base: nat)
    requires TablesFit(st, len)
  {
    forall f | f in WholeFrames(FrozenFree(st, len), base, len) :: TablesEnd(st, len) <= base + f * FRAME_SIZE
  }

  /** The script was served from a record with exactly the whole frames of the free list free. */
  ghost predicate RanFrom(trace: seq<PhysicalRuns.State>, script: seq<PhysicalRuns.Request>, free: seq<Memblock>,
                          base: nat, len: nat) {
    var md := Buddy.OrderFor(len);
    && PhysicalRuns.Trace(trace, script, md, base) && trace[0].live == [] && WellFormed(trace[0].trees, md)
    && Extents(free, base, len) && |trace[0].trees| == Buddy.TreesFor(len)
    && FreeFrames(trace[0].trees, md) == WholeFrames(free, base, len)
    && Offers(trace[0].trees, md, PiecesOf(free, base, Buddy.BUDDY_MAX_ORDER))
  }

  /**
   The first request after the boot is served exactly if some free extent is twice as large as the block that is
   reserved for it, and there are blocks twice as large at all.
   */
  lemma FirstRequest(trace: seq<PhysicalRuns.State>, script: seq<PhysicalRuns.Request>, free: seq<Memblock>, base: nat,
                     len: nat, cnt: nat)
    requires RanFrom(trace, script, free, base, len) && |script| > 0 && script[0] == PhysicalRuns.Alloc(cnt)
    ensures var order := AllocOrder(cnt, AddrRange.Small);
            trace[1].live != [] <==>
            && order < Buddy.BUDDY_MAX_ORDER
            && exists i :: 0 <= i < |free| && free[i].size >= Bits.Pow2(order + 1) * FRAME_SIZE
  {
    var order, md := AllocOrder(cnt, AddrRange.Small), Buddy.OrderFor(len);
    assert PhysicalRuns.StepOf(trace, script, 0, md, base);
    if order <= md {
      FirstReserve(free, base, len, Buddy.BUDDY_MAX_ORDER, trace[0].trees, order);
    } else if order < Buddy.BUDDY_MAX_ORDER {
      NoLargerExtent(free, base, len, Buddy.BUDDY_MAX_ORDER, order);
    }
  }

  /** What holds of the ranges in the callers' hands. */
  ghost predicate Sound(live: seq<PhysicalRuns.Held>, areas: seq<Area>, kernelEnd: nat) {
    && (forall i | 0 <= i < |live| :: live[i].asked <= live[i].len)
    && (forall i, j, a: nat | 0 <= i < j < |live| && live[i].Has(a) :: !live[j].Has(a))
    && (forall i, a: nat | 0 <= i < |live| && live[i].Has(a) :: Usable(areas, kernelEnd, a))
  }

  /**
   The kernel boots and serves any script of requests. It gets there exactly if the tables fit and the free list is
   eligible. Then nothing panics, and the ranges in the callers' hands are as long as asked for, never overlap, and are
   available memory above the kernel. They miss the tables if all handed-over frames lie above these.
   */
  method BootAndRun(areas: seq<Area>, kernelEnd: nat, script: seq<PhysicalRuns.Request>)
    returns (eligible: bool, live: seq<PhysicalRuns.Held>, ok: bool,
             ghost loaded: bool, ghost st: Boot, ghost base: nat, ghost len: nat, ghost trace: seq<PhysicalRuns.State>)
    requires AreasApart(areas) && InSpace(areas, kernelEnd)
    ensures |areas| <= MEMBLOCKS_LEN && (exists a: nat :: Usable(areas, kernelEnd, a)) ==> loaded
    ensures loaded ==> Booted(areas, kernelEnd, st, base, len)
    ensures eligible <==> loaded && TablesFit(st, len) && AllEligible(FrozenFree(st, len), base)
    ensures eligible ==> ok && Sound(live, areas, kernelEnd)
    ensures eligible ==> RanFrom(trace, script, FrozenFree(st, len), base, len) && trace[|script|].live == live
    ensures eligible && FramesAboveTables(st, len, base) ==>
              forall i, a: nat | 0 <= i < |live| && live[i].Has(a) :: !InTables(st, len, a)
  {
    eligible, live, ok, trace := false, [], false, [];
    var pmr, free, framesAt, forestAt;
    pmr, free, framesAt, forestAt, loaded, st, base, len := Start(areas, kernelEnd);
    if pmr.None? || !AllEligible(free, pmr.value.base) {
      return;
    }
    eligible := true;
    ghost var blks;
    live, ok, blks, trace := PhysicalRuns.Run(pmr.value, script);
    LiveUsable(areas, kernelEnd, st, base, len, live, blks, pmr.value.buddy.held);
  }

  lemma LiveUsable(areas: seq<Area>, kernelEnd: nat, st: Boot, base: nat, len: nat, live: seq<PhysicalRuns.Held>,
                   blks: seq<Block>, held: set<Block>)
    requires Booted(areas, kernelEnd, st, base, len) && TablesFit(st, len)
    requires PhysicalRuns.Lists(live, blks, held, base)
    requires HeldFrames(held) <= WholeFrames(FrozenFree(st, len), base, len)
    ensures forall i, a: nat | 0 <= i < |live| && live[i].Has(a) :: Usable(areas, kernelEnd, a)
    ensures FramesAboveTables(st, len, base) ==>
              forall i, a: nat | 0 <= i < |live| && live[i].Has(a) :: !InTables(st, len, a)
  {
    FreshTablesApart(st, len, base);
    forall i, a: nat | 0 <= i < |live| && live[i].Has(a)
      ensures Usable(areas, kernelEnd, a) && (TablesApart(st, len, base) ==> !InTables(st, len, a))
    {
      assert blks[i] in held;
      assert Frames(blks[i]) <= HeldFrames(held);
      HeldIsUsable(areas, kernelEnd, st, base, len, blks[i], live[i], a);
    }
  }
}
