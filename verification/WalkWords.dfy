/** The words of memory that `map` writes. */
module WalkWords {
  import opened Options
  import opened MachineWord
  import opened Entry
  import opened PageTable

  type Memory = map<nat, seq<Word>>

  /** The frame that the walk for v from a root comes to at a level, whatever the words in memory are. */
  function RawTable(words: Memory, root: nat, level: Level, v: nat): Option<nat>
    requires !level.CR3?
    decreases Rank(level)
  {
    if level.PML4? then Some(root)
    else
      var f := RawTable(words, root, Above(level), v);
      if f.None? || f.value !in words || |words[f.value]| != 512 then None
      else
        var t := TargetOf(words[f.value][Idx(Above(level), v)], Above(level));
        if t.Table? then Some(t.addr) else None
  }

  predicate SameFrames(words: Memory, words': Memory) {
    words'.Keys == words.Keys && forall g | g in words :: |words'[g]| == |words[g]|
  }

  /** Only the word at index i of frame f differs. */
  ghost predicate OneWord(words: Memory, words': Memory, f: nat, i: nat) {
    && words'.Keys == words.Keys && f in words && |words'[f]| == |words[f]|
    && (forall g | g in words && g != f :: words'[g] == words[g])
    && forall j | 0 <= j < |words[f]| && j != i :: words'[f][j] == words[f][j]
  }

  /** A reference to a table that was there is kept; otherwise there is one now, present and writable and no more. */
  predicate LinkKept(w: Word, w': Word, level: Level) {
    if TargetOf(w, level).Table? then w' == w
    else TargetOf(w', level).Table? && Value(w', 0, 64) == TargetOf(w', level).addr + 3
  }

  /** The last entry: the address and the bits of the flags, or nothing for no flags, or what it was. */
  predicate LeafOf(w: Word, w': Word, level: Level, p: nat, flags: seq<Flag>) {
    if Allowed(level, flags) then w' == BitsOf(flags) + Bin(p) && Value(w', 0, 64) == p + FlagNumber(flags)
    else w' == if flags == [] then {} else w
  }

  /** The entry of a level on the walk for v. */
  predicate IsEntry(words: Memory, root: nat, v: nat, level: Level, f: nat, i: nat) {
    !level.CR3? && RawTable(words, root, level, v) == Some(f) && i == Idx(level, v)
  }

  ghost predicate Linked(w0: Memory, w1: Memory, root: nat, v: nat, level: Level)
    requires SameFrames(w0, w1)
  {
    exists f, i: nat ::
      IsEntry(w1, root, v, level, f, i) && f in w0 && i < |w0[f]| && LinkKept(w0[f][i], w1[f][i], level)
  }

  ghost predicate LeafWord(w0: Memory, w1: Memory, root: nat, v: nat, level: Level, p: nat, flags: seq<Flag>)
    requires SameFrames(w0, w1)
  {
    exists f, i: nat ::
      IsEntry(w1, root, v, level, f, i) && f in w0 && i < |w0[f]| && LeafOf(w0[f][i], w1[f][i], level, p, flags)
  }

  ghost predicate OnWalk(words: Memory, root: nat, v: nat, n: nat, f: nat, i: nat) {
    exists level :: IsEntry(words, root, v, level, f, i) && Rank(level) < n
  }

  /** No word differs but entries on the walk of the levels above the n-th. */
  ghost predicate OnlyOnWalk(w0: Memory, w1: Memory, root: nat, v: nat, n: nat)
    requires SameFrames(w0, w1)
  {
    forall g, i {:trigger w1[g][i]} | g in w0 && 0 <= i < |w0[g]| && w1[g][i] != w0[g][i] ::
      OnWalk(w1, root, v, n, g, i)
  }

  /** What is written on the way down to a level: references to the tables that were missing. */
  ghost predicate Trail(w0: Memory, w1: Memory, root: nat, v: nat, level: Level) {
    && SameFrames(w0, w1) && (forall l: Level | 0 < Rank(l) < Rank(level) :: Linked(w0, w1, root, v, l))
    && OnlyOnWalk(w0, w1, root, v, Rank(level))
  }

  /** What `map` writes: references to the tables that were missing, and the entry of the page. */
  ghost predicate MappedWords(w0: Memory, w1: Memory, root: nat, v: nat, target: Level, p: nat, flags: seq<Flag>) {
    && SameFrames(w0, w1) && (forall l: Level | 0 < Rank(l) < Rank(target) :: Linked(w0, w1, root, v, l))
    && OnlyOnWalk(w0, w1, root, v, Rank(target) + 1) && LeafWord(w0, w1, root, v, target, p, flags)
  }

  /** What it writes when it runs out of frames above the page. */
  ghost predicate StoppedWords(w0: Memory, w1: Memory, root: nat, v: nat, target: Level) {
    exists l: Level :: 0 < Rank(l) < Rank(target) && Trail(w0, w1, root, v, l)
  }

  /** The words of a new root: nothing in the lower half, and the upper half of another root; no other word differs. */
  ghost predicate CopiedWords(w0: Memory, w1: Memory, current: nat, a: nat) {
    && SameFrames(w0, w1) && a in w0 && |w0[a]| == 512 && current in w0 && |w0[current]| == 512
    && (forall g | g in w0 && g != a :: w1[g] == w0[g])
    && (forall i | 0 <= i < 256 :: w1[a][i] == {})
    && forall i | 256 <= i < 512 :: w1[a][i] == w0[current][i]
  }

  // ---------------------------------------------------------------- one more level

  /** The walk does not come to frame f above the level. */
  ghost predicate Before(words: Memory, root: nat, v: nat, level: Level, f: nat) {
    forall l: Level | 0 < Rank(l) < Rank(level) :: RawTable(words, root, l, v) != Some(f)
  }

  lemma StartTrail(words: Memory, root: nat, v: nat)
    ensures Trail(words, words, root, v, PML4)
  {
  }

  lemma {:induction false} RawTableKept(w: Memory, w': Memory, root: nat, v: nat, f: nat, i: nat, level: Level)
    requires OneWord(w, w', f, i) && !level.CR3? && Before(w, root, v, level, f)
    ensures RawTable(w', root, level, v) == RawTable(w, root, level, v)
    decreases Rank(level)
  {
    if !level.PML4? {
      RawTableKept(w, w', root, v, f, i, Above(level));
      assert RawTable(w, root, Above(level), v) != Some(f);
    }
  }

  lemma EntriesKept(w: Memory, w': Memory, root: nat, v: nat, f: nat, i: nat, level: Level)
    requires OneWord(w, w', f, i) && !level.CR3? && Before(w, root, v, level, f)
    ensures forall l: Level | 0 < Rank(l) <= Rank(level) :: RawTable(w', root, l, v) == RawTable(w, root, l, v)
  {
    forall l: Level | 0 < Rank(l) <= Rank(level)
      ensures RawTable(w', root, l, v) == RawTable(w, root, l, v)
    {
      RawTableKept(w, w', root, v, f, i, l);
    }
  }

  /** A frame that the walk comes to for the first time has its old words. */
  lemma StillOld(w0: Memory, w: Memory, root: nat, v: nat, level: Level, f: nat, i: nat)
    requires Trail(w0, w, root, v, level) && Before(w, root, v, level, f) && f in w && i < |w[f]|
    ensures w[f][i] == w0[f][i]
  {
  }

  lemma LinksKept(w0: Memory, w: Memory, w': Memory, root: nat, v: nat, level: Level, f: nat, i: nat, l: Level)
    requires Trail(w0, w, root, v, level) && Before(w, root, v, level, f) && OneWord(w, w', f, i) && !level.CR3?
    requires SameFrames(w0, w') && 0 < Rank(l) < Rank(level)
    ensures Linked(w0, w', root, v, l)
  {
    EntriesKept(w, w', root, v, f, i, level);
    assert Linked(w0, w, root, v, l);
    var g, j: nat :| IsEntry(w, root, v, l, g, j) && g in w0 && j < |w0[g]| && LinkKept(w0[g][j], w[g][j], l);
    assert g != f;
    assert IsEntry(w', root, v, l, g, j) && w'[g] == w[g];
  }

  lemma ChangesOnWalk(w0: Memory, w: Memory, w': Memory, root: nat, v: nat, level: Level, f: nat, i: nat)
    requires Trail(w0, w, root, v, level) && Before(w, root, v, level, f) && OneWord(w, w', f, i) && !level.CR3?
    requires SameFrames(w0, w') && IsEntry(w, root, v, level, f, i)
    ensures OnlyOnWalk(w0, w', root, v, Rank(level) + 1)
  {
    EntriesKept(w, w', root, v, f, i, level);
    forall g, j {:trigger w'[g][j]} | g in w0 && 0 <= j < |w0[g]| && w'[g][j] != w0[g][j]
      ensures OnWalk(w', root, v, Rank(level) + 1, g, j)
    {
      if g == f && j == i {
        assert IsEntry(w', root, v, level, g, j);
      } else {
        assert w[g][j] == w'[g][j];
        var l :| IsEntry(w, root, v, l, g, j) && Rank(l) < Rank(level);
        assert IsEntry(w', root, v, l, g, j);
      }
    }
  }

  /** The entry of a level is kept or linked. */
  lemma TrailStep(w0: Memory, w: Memory, w': Memory, root: nat, v: nat, level: Level, f: nat, i: nat)
    requires Trail(w0, w, root, v, level) && Before(w, root, v, level, f) && OneWord(w, w', f, i)
    requires !level.PT? && IsEntry(w, root, v, level, f, i) && i < |w[f]| && LinkKept(w[f][i], w'[f][i], level)
    ensures Trail(w0, w', root, v, Below(level))
  {
    StillOld(w0, w, root, v, level, f, i);
    ChangesOnWalk(w0, w, w', root, v, level, f, i);
    forall l: Level | 0 < Rank(l) < Rank(Below(level))
      ensures Linked(w0, w', root, v, l)
    {
      if l == level {
        EntriesKept(w, w', root, v, f, i, level);
        assert IsEntry(w', root, v, l, f, i);
      } else {
        assert Rank(l) < Rank(level);
        LinksKept(w0, w, w', root, v, level, f, i, l);
      }
    }
  }

  /** The entry of the page is written. */
  lemma TrailEnd(w0: Memory, w: Memory, w': Memory, root: nat, v: nat, target: Level, f: nat, i: nat, p: nat,
                 flags: seq<Flag>)
    requires Trail(w0, w, root, v, target) && Before(w, root, v, target, f) && OneWord(w, w', f, i)
    requires IsEntry(w, root, v, target, f, i) && i < |w[f]| && LeafOf(w[f][i], w'[f][i], target, p, flags)
    ensures MappedWords(w0, w', root, v, target, p, flags)
  {
    StillOld(w0, w, root, v, target, f, i);
    ChangesOnWalk(w0, w, w', root, v, target, f, i);
    EntriesKept(w, w', root, v, f, i, target);
    assert IsEntry(w', root, v, target, f, i);
    forall l: Level | 0 < Rank(l) < Rank(target)
      ensures Linked(w0, w', root, v, l)
    {
      LinksKept(w0, w, w', root, v, target, f, i, l);
    }
  }
}
