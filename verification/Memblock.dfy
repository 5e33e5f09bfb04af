/** Sorted lists of memory extents, as the boot allocator keeps them. */
module Memblock {
  import opened Options

  const MEMBLOCKS_LEN: nat := 128

  datatype Memblock = Memblock(base: nat, size: nat) {
    function End(): nat { base + size }

    predicate Has(a: nat) { base <= a < End() }
  }

  // ---------------------------------------------------------------- lists of extents

  predicate Covers(s: seq<Memblock>, a: nat) {
    exists i :: 0 <= i < |s| && s[i].Has(a)
  }

  /** Sorted and without overlap; extents may touch or be empty. */
  predicate Sorted(s: seq<Memblock>) {
    forall i, j | 0 <= i < j < |s| :: s[i].base < s[j].base && s[i].End() <= s[j].base
  }

  /** Sorted, with a gap after every extent, and none empty. */
  predicate Canonical(s: seq<Memblock>) {
    && (forall i | 0 <= i < |s| :: s[i].size > 0)
    && (forall i, j | 0 <= i < j < |s| :: s[i].End() < s[j].base)
  }

  predicate Disjoint(s: seq<Memblock>, b: Memblock) {
    forall i | 0 <= i < |s| :: s[i].End() <= b.base || b.End() <= s[i].base
  }

  /** The index of the first extent that starts at `base` or above. */
  function Pivot(s: seq<Memblock>, base: nat): (p: nat)
    ensures p <= |s|
  {
    PivotFrom(s, base, 0)
  }

  function PivotFrom(s: seq<Memblock>, base: nat, i: nat): (p: nat)
    requires i <= |s|
    ensures i <= p <= |s|
    decreases |s| - i
  {
    if i == |s| || s[i].base >= base then i else PivotFrom(s, base, i + 1)
  }

  lemma PivotSplits(s: seq<Memblock>, base: nat)
    requires Sorted(s)
    ensures forall i | 0 <= i < Pivot(s, base) :: s[i].base < base
    ensures forall i | Pivot(s, base) <= i < |s| :: s[i].base >= base
  {
    PivotFromSplits(s, base, 0);
  }

  lemma {:induction false} PivotFromSplits(s: seq<Memblock>, base: nat, i: nat)
    requires i <= |s|
    ensures forall j | i <= j < PivotFrom(s, base, i) :: s[j].base < base
    ensures PivotFrom(s, base, i) < |s| ==> s[PivotFrom(s, base, i)].base >= base
    decreases |s| - i
  {
    if i < |s| && s[i].base < base {
      PivotFromSplits(s, base, i + 1);
    }
  }

  lemma PivotUnique(s: seq<Memblock>, base: nat, p: nat)
    requires p <= |s|
    requires forall i | 0 <= i < p :: s[i].base < base
    requires p < |s| ==> s[p].base >= base
    ensures Pivot(s, base) == p
  {
    PivotFromSplits(s, base, 0);
  }

  /** The list already has an extent with the same start. */
  predicate Duplicate(s: seq<Memblock>, b: Memblock) {
    var p := Pivot(s, b.base);
    p < |s| && s[p].base == b.base
  }

  predicate MergesPrev(s: seq<Memblock>, b: Memblock) {
    var p := Pivot(s, b.base);
    p > 0 && s[p - 1].End() == b.base
  }

  predicate MergesNext(s: seq<Memblock>, b: Memblock) {
    var p := Pivot(s, b.base);
    p < |s| && b.End() == s[p].base
  }

  /** The list after `insert`: the four merge cases. */
  function Inserted(s: seq<Memblock>, b: Memblock): seq<Memblock> {
    var p := Pivot(s, b.base);
    if Duplicate(s, b) then s
    else if MergesPrev(s, b) && MergesNext(s, b) then
      s[..p - 1] + [Memblock(s[p - 1].base, s[p - 1].size + (s[p].size + b.size))] + s[p + 1..]
    else if MergesPrev(s, b) then
      s[p - 1 := Memblock(s[p - 1].base, s[p - 1].size + b.size)]
    else if MergesNext(s, b) then
      s[p := Memblock(b.base, s[p].size + b.size)]
    else s[..p] + [b] + s[p..]
  }

  /** `insert` needs one more slot. */
  predicate Grows(s: seq<Memblock>, b: Memblock) {
    !Duplicate(s, b) && !MergesPrev(s, b) && !MergesNext(s, b)
  }

  lemma CanonicalSorted(s: seq<Memblock>)
    requires Canonical(s)
    ensures Sorted(s)
  {
  }

  lemma CoversConcat(s: seq<Memblock>, t: seq<Memblock>, a: nat)
    ensures Covers(s + t, a) <==> Covers(s, a) || Covers(t, a)
  {
    if Covers(s, a) {
      var i :| 0 <= i < |s| && s[i].Has(a);
      assert (s + t)[i].Has(a);
    }
    if Covers(t, a) {
      var i :| 0 <= i < |t| && t[i].Has(a);
      assert (s + t)[|s| + i].Has(a);
    }
  }

  /** The extents `lo .. hi` of `s` are replaced by the one extent `m`. */
  function Splice(s: seq<Memblock>, lo: nat, hi: nat, m: Memblock): seq<Memblock>
    requires lo <= hi <= |s|
  {
    s[..lo] + [m] + s[hi..]
  }

  /** First and last index of the extents that `b` merges with, and the merged extent. */
  function Merged(s: seq<Memblock>, b: Memblock): (r: (nat, nat, Memblock))
    ensures r.0 <= r.1 <= |s|
  {
    var p := Pivot(s, b.base);
    var lo := if MergesPrev(s, b) then p - 1 else p;
    var hi := if MergesNext(s, b) then p + 1 else p;
    var base := if MergesPrev(s, b) then s[p - 1].base else b.base;
    var before := if MergesPrev(s, b) then s[p - 1].size else 0;
    var after := if MergesNext(s, b) then s[p].size else 0;
    (lo, hi, Memblock(base, before + (after + b.size)))
  }

  /** All four merge cases are one splice. */
  lemma InsertedIsSplice(s: seq<Memblock>, b: Memblock)
    requires !Duplicate(s, b)
    ensures Inserted(s, b) == Splice(s, Merged(s, b).0, Merged(s, b).1, Merged(s, b).2)
  {
  }

  lemma SpliceCovers(s: seq<Memblock>, lo: nat, hi: nat, m: Memblock, a: nat)
    requires lo <= hi <= |s|
    ensures Covers(Splice(s, lo, hi, m), a) <==> Covers(s[..lo], a) || m.Has(a) || Covers(s[hi..], a)
    ensures Covers(s, a) <==> Covers(s[..lo], a) || Covers(s[lo..hi], a) || Covers(s[hi..], a)
  {
    CoversConcat(s[..lo] + [m], s[hi..], a);
    CoversConcat(s[..lo], [m], a);
    assert Covers([m], a) <==> m.Has(a) by { assert [m][0] == m; }
    assert s == s[..lo] + s[lo..hi] + s[hi..];
    CoversConcat(s[..lo] + s[lo..hi], s[hi..], a);
    CoversConcat(s[..lo], s[lo..hi], a);
  }

  /** Where the merged extents and the rest of the list lie. */
  lemma MergedApart(s: seq<Memblock>, b: Memblock)
    requires Canonical(s) && Disjoint(s, b) && b.size > 0
    ensures !Duplicate(s, b)
    ensures var (lo, hi, m) := Merged(s, b);
            && m.size > 0 && (forall i | 0 <= i < lo :: s[i].End() < m.base)
            && (forall i | hi <= i < |s| :: m.End() < s[i].base)
  {
    PivotSplits(s, b.base);
  }

  lemma MergedCovers(s: seq<Memblock>, b: Memblock, a: nat)
    requires Canonical(s) && Disjoint(s, b)
    ensures var (lo, hi, m) := Merged(s, b);
            m.Has(a) <==> b.Has(a) || Covers(s[lo..hi], a)
  {
    var (lo, hi, m) := Merged(s, b);
    var mid := s[lo..hi];
    if MergesPrev(s, b) { assert mid[0] == s[lo]; }
    if MergesNext(s, b) { assert mid[|mid| - 1] == s[hi - 1]; }
  }

  lemma SpliceCanonical(s: seq<Memblock>, lo: nat, hi: nat, m: Memblock)
    requires Canonical(s) && lo <= hi <= |s| && m.size > 0
    requires forall i | 0 <= i < lo :: s[i].End() < m.base
    requires forall i | hi <= i < |s| :: m.End() < s[i].base
    ensures Canonical(Splice(s, lo, hi, m))
  {
    var t := Splice(s, lo, hi, m);
    forall i, j | 0 <= i < j < |t|
      ensures t[i].End() < t[j].base
    {
      assert t[i] == if i < lo then s[i] else if i == lo then m else s[i - lo - 1 + hi];
      assert t[j] == if j < lo then s[j] else if j == lo then m else s[j - lo - 1 + hi];
    }
  }

  /** Inserting an extent that overlaps none adds exactly its bytes. */
  lemma InsertCovers(s: seq<Memblock>, b: Memblock)
    requires Canonical(s) && Disjoint(s, b) && (Duplicate(s, b) ==> b.size == 0)
    ensures forall a: nat :: Covers(Inserted(s, b), a) <==> Covers(s, a) || b.Has(a)
  {
    if !Duplicate(s, b) {
      InsertedIsSplice(s, b);
      var r := Merged(s, b);
      forall a: nat
        ensures Covers(Inserted(s, b), a) <==> Covers(s, a) || b.Has(a)
      {
        SpliceCovers(s, r.0, r.1, r.2, a);
        MergedCovers(s, b, a);
      }
    }
  }

  /** Inserting an extent that overlaps none keeps the list canonical. */
  lemma InsertCanonical(s: seq<Memblock>, b: Memblock)
    requires Canonical(s) && b.size > 0 && Disjoint(s, b)
    ensures !Duplicate(s, b)
    ensures Canonical(Inserted(s, b)) && |Inserted(s, b)| <= |s| + (if Grows(s, b) then 1 else 0)
    ensures forall a: nat :: Covers(Inserted(s, b), a) <==> Covers(s, a) || b.Has(a)
  {
    MergedApart(s, b);
    InsertedIsSplice(s, b);
    var r := Merged(s, b);
    SpliceCanonical(s, r.0, r.1, r.2);
    InsertCovers(s, b);
  }

  lemma PlainSorted(s: seq<Memblock>, b: Memblock, p: nat)
    requires Canonical(s) && p <= |s|
    requires forall i | 0 <= i < p :: s[i].base < b.base && s[i].End() <= b.base
    requires forall i | p <= i < |s| :: b.base < s[i].base && b.End() <= s[i].base
    ensures Sorted(s[..p] + [b] + s[p..])
  {
    var t := s[..p] + [b] + s[p..];
    forall i, j | 0 <= i < j < |t|
      ensures t[i].base < t[j].base && t[i].End() <= t[j].base
    {
      assert t[i] == if i < p then s[i] else if i == p then b else s[i - 1];
      assert t[j] == if j < p then s[j] else if j == p then b else s[j - 1];
    }
  }

  /** An empty extent, as `freeze` may insert one, keeps the list sorted and adds no bytes. */
  lemma InsertEmpty(s: seq<Memblock>, b: Memblock)
    requires Canonical(s) && b.size == 0 && Disjoint(s, b)
    ensures Sorted(Inserted(s, b)) && |Inserted(s, b)| <= |s| + 1
    ensures forall a: nat :: Covers(Inserted(s, b), a) <==> Covers(s, a)
  {
    InsertCovers(s, b);
    PivotSplits(s, b.base);
    if Grows(s, b) {
      PlainSorted(s, b, Pivot(s, b.base));
    } else if !Duplicate(s, b) {
      assert Inserted(s, b) == s;
    }
  }

  // ---------------------------------------------------------------- one list

  datatype InsertResult = Done | Rejected | Overflow

  /** A sorted list of at most `MEMBLOCKS_LEN` extents. */
  class Memblocks {
    var data: seq<Memblock>

    constructor ()
      ensures data == []
    {
      data := [];
    }

    method BinarySearch(base: nat) returns (found: bool, idx: nat)
      requires Sorted(data)
      ensures idx <= |data|
      ensures found ==> idx < |data| && data[idx].base == base
      ensures !found ==> forall i | 0 <= i < |data| :: data[i].base != base
      ensures idx == Pivot(data, base)
    {
      var lo, hi := 0, |data|;
      while lo < hi
        invariant 0 <= lo <= hi <= |data|
        invariant forall i | 0 <= i < lo :: data[i].base < base
        invariant forall i | hi <= i < |data| :: data[i].base > base
      {
        var mid := (lo + hi) / 2;
        if data[mid].base == base {
          PivotUnique(data, base, mid);
          return true, mid;
        } else if data[mid].base < base {
          lo := mid + 1;
        } else {
          hi := mid;
        }
      }
      PivotUnique(data, base, lo);
      return false, lo;
    }

    /** Inserts an extent, merging it with its neighbours. A full list is a panic. */
    method Insert(block: Memblock) returns (r: InsertResult)
      requires Sorted(data)
      modifies this
      ensures r == Rejected <==> Duplicate(old(data), block)
      ensures r == Overflow <==> Grows(old(data), block) && |old(data)| >= MEMBLOCKS_LEN
      ensures data == if r == Overflow then old(data) else Inserted(old(data), block)
    {
      var found, pivot := BinarySearch(block.base);
      if found {
        return Rejected;
      }
      ghost var s := data;
      PivotSplits(data, block.base);
      var mergePrev: Option<nat>, mergeNext: Option<nat> := None, None;
      if pivot > 0 && block.base - data[pivot - 1].base == data[pivot - 1].size {
        mergePrev := Some(pivot - 1);
      }
      if pivot < |data| && data[pivot].base - block.base == block.size {
        mergeNext := Some(pivot);
      }
      assert mergePrev.Some? == MergesPrev(s, block) && mergeNext.Some? == MergesNext(s, block);
      assert !Duplicate(s, block);
      match (mergePrev, mergeNext) {
      case (None, None) =>
        if |data| >= MEMBLOCKS_LEN {
          return Overflow;
        }
        data := data[..pivot] + [block] + data[pivot..];
      case (None, Some(idx)) =>
        data := data[idx := Memblock(block.base, data[idx].size + block.size)];
      case (Some(idx), None) =>
        data := data[idx := data[idx].(size := data[idx].size + block.size)];
      case (Some(prev), Some(idx)) =>
        data := data[prev := data[prev].(size := data[prev].size + (data[idx].size + block.size))];
        data := data[..idx] + data[idx + 1..];
      }
      return Done;
    }

    method Pop() returns (b: Option<Memblock>)
      modifies this
      ensures old(data) == [] ==> b.None? && data == []
      ensures old(data) != [] ==> b == Some(old(data)[|old(data)| - 1]) && data == old(data)[..|old(data)| - 1]
    {
      if data == [] {
        return None;
      }
      b := Some(data[|data| - 1]);
      data := data[..|data| - 1];
    }
  }
}
