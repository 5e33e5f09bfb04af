/**
 The level-order forest of binary trees behind one flat buffer, with its cursors. A node is named
 by its offset: the roots are `treeCnt .. 2 * treeCnt`, the children of `n` are `2n` and `2n + 1`,
 and the byte of `n` is at `n - treeCnt` in the buffer.
 */
module Forest {
  import opened Bits
  import opened BuddyTree

  type Byte = n: nat | n < 256

  /** A position in a forest. The moves return whether they were possible. */
  datatype Cursor = Cursor(depth: nat, maxDepth: nat, offset: nat) {

    function Down(child: nat): (r: (Cursor, bool))
      requires child < 2
    {
      if depth == maxDepth then (this, false)
      else (this.(depth := depth + 1, offset := offset * 2 + child), true)
    }

    function Left(): (Cursor, bool) { Down(0) }

    function Right(): (Cursor, bool) { Down(1) }

    function Up(): (r: (Cursor, bool)) {
      if depth == 0 then (this, false)
      else (this.(depth := depth - 1, offset := offset / 2), true)
    }

    /** `offset ^= 1`. */
    function Sibling(): (r: (Cursor, bool)) {
      if depth == 0 then (this, false)
      else (this.(offset := SiblingOf(offset)), true)
    }
  }

  function SiblingOf(n: nat): nat {
    if n % 2 == 0 then n + 1 else n - 1
  }

  class ArrayForest {
    const buf: array<Byte>
    const treeCnt: nat
    const treeDepth: nat

    predicate Valid() {
      treeDepth > 0 && buf.Length == Shl(treeCnt, treeDepth)
    }

    /** A forest whose every node is `fill`. */
    constructor (treeCnt: nat, treeDepth: nat, fill: Byte)
      requires treeDepth > 0
      ensures Valid() && fresh(buf)
      ensures this.treeCnt == treeCnt && this.treeDepth == treeDepth
      ensures forall i | 0 <= i < buf.Length :: buf[i] == fill
    {
      this.treeCnt := treeCnt;
      this.treeDepth := treeDepth;
      buf := new Byte[Shl(treeCnt, treeDepth)](_ => fill);
    }

    function MaxDepth(): nat
      requires treeDepth > 0
    {
      treeDepth - 1
    }

    function OffsetStart(depth: nat): nat {
      Shl(treeCnt, depth)
    }

    /** The cursor stands on a node of its level. */
    predicate OnLevel(c: Cursor)
      requires Valid()
    {
      && c.maxDepth == MaxDepth()
      && c.depth <= c.maxDepth
      && OffsetStart(c.depth) <= c.offset < OffsetStart(c.depth + 1)
    }

    function CursorAt(depth: nat, idx: nat): (c: Cursor)
      requires Valid() && depth <= MaxDepth() && idx < OffsetStart(depth)
      ensures OnLevel(c) && Idx(c) == idx
    {
      ShlDouble(treeCnt, depth);
      Cursor(depth, MaxDepth(), OffsetStart(depth) + idx)
    }

    /** Index of the cursor within its level. */
    function Idx(c: Cursor): nat
      requires Valid() && OnLevel(c)
    {
      c.offset - OffsetStart(c.depth)
    }

    function Get(c: Cursor): (v: Byte)
      requires Valid() && OnLevel(c)
      reads buf
      ensures v == Val(buf[..], treeCnt, c.offset)
    {
      InsideBuffer(c);
      buf[c.offset - treeCnt]
    }

    /** Every cursor that stands on its level indexes inside the buffer. */
    lemma InsideBuffer(c: Cursor)
      requires Valid() && OnLevel(c)
      ensures treeCnt <= c.offset && c.offset - treeCnt < buf.Length
      ensures 0 < treeCnt
    {
      ShlGrows(treeCnt, 0, c.depth);
      ShlGrows(treeCnt, c.depth + 1, treeDepth);
      ShlZero(c.depth + 1);
    }

    /** Moves that report success stand on the level they moved to. */
    lemma MovesStayInside(c: Cursor)
      requires Valid() && OnLevel(c)
      ensures forall child | child == 0 || child == 1 :: c.Down(child).1 ==> OnLevel(c.Down(child).0)
      ensures c.Up().1 ==> OnLevel(c.Up().0)
      ensures c.Sibling().1 ==> OnLevel(c.Sibling().0)
    {
      ShlDouble(treeCnt, c.depth);
      ShlDouble(treeCnt, c.depth + 1);
      if c.depth > 0 {
        ShlDouble(treeCnt, c.depth - 1);
      }
    }

    method Set(c: Cursor, v: Byte)
      requires Valid() && OnLevel(c)
      modifies buf
      ensures Written(old(buf[..]), buf[..], treeCnt, c.offset, v)
    {
      InsideBuffer(c);
      buf[c.offset - treeCnt] := v;
    }

    /** `slice_mut(depth)[start..end].fill(v)`. */
    method FillSlice(depth: nat, start: nat, end: nat, v: Byte)
      requires Valid() && depth <= MaxDepth() && start <= end <= OffsetStart(depth)
      modifies buf
      ensures forall x: nat :: Val(buf[..], treeCnt, x) ==
                               if OffsetStart(depth) + start <= x < OffsetStart(depth) + end then v
                               else Val(old(buf[..]), treeCnt, x)
    {
      ShlGrows(treeCnt, 0, depth);
      ShlGrows(treeCnt, depth + 1, treeDepth);
      ShlDouble(treeCnt, depth);
      var base := OffsetStart(depth) - treeCnt;
      for i := start to end
        invariant forall x | 0 <= x < buf.Length ::
                    buf[x] == if base + start <= x < base + i then v else old(buf[x])
      {
        buf[base + i] := v;
      }
    }
  }

  lemma {:induction false} ShlGrows(x: nat, a: nat, b: nat)
    requires a <= b
    ensures Shl(x, a) <= Shl(x, b)
  {
    ShlShl(x, a, b - a);
    ShlAtLeast(Shl(x, a), b - a);
  }

  lemma {:induction false} ShlAtLeast(x: nat, k: nat)
    ensures x <= Shl(x, k)
    decreases k
  {
    if k > 0 {
      ShlAtLeast(2 * x, k - 1);
    }
  }

  // ---------------------------------------------------------------- buffers as trees

  /** The byte of node `n`, or 0 outside the buffer. */
  function Val(b: seq<Byte>, cnt: nat, n: nat): Byte {
    if cnt <= n < cnt + |b| then b[n - cnt] else 0
  }

  /** `b'` is `b` with the byte of node `n` set to `v`. */
  ghost predicate Written(b: seq<Byte>, b': seq<Byte>, cnt: nat, n: nat, v: Byte) {
    && Val(b', cnt, n) == v
    && forall x: nat | x != n :: Val(b', cnt, x) == Val(b, cnt, x)
  }

  /** The tree of height `h` below node `n`. */
  function TreeOf(b: seq<Byte>, cnt: nat, n: nat, h: nat): (t: Tree)
    ensures Shape(t, h)
    ensures t.val == Val(b, cnt, n)
    decreases h, n
  {
    if h == 0 then Leaf(Val(b, cnt, n))
    else Node(Val(b, cnt, n), TreeOf(b, cnt, 2 * n, h - 1), TreeOf(b, cnt, 2 * n + 1, h - 1))
  }

  /** The whole forest. */
  function Trees(b: seq<Byte>, cnt: nat, md: nat): (ts: seq<Tree>)
    ensures |ts| == cnt
  {
    FirstTrees(b, cnt, md, cnt)
  }

  function FirstTrees(b: seq<Byte>, cnt: nat, md: nat, n: nat): (ts: seq<Tree>)
    ensures |ts| == n
  {
    if n == 0 then [] else FirstTrees(b, cnt, md, n - 1) + [TreeOf(b, cnt, cnt + n - 1, md)]
  }

  lemma TreesAt(b: seq<Byte>, cnt: nat, md: nat, r: nat)
    requires r < cnt
    ensures Trees(b, cnt, md)[r] == TreeOf(b, cnt, cnt + r, md)
  {
    FirstTreesAt(b, cnt, md, cnt, r);
  }

  lemma {:induction false} FirstTreesAt(b: seq<Byte>, cnt: nat, md: nat, n: nat, r: nat)
    requires r < n
    ensures FirstTrees(b, cnt, md, n)[r] == TreeOf(b, cnt, cnt + r, md)
  {
    if r < n - 1 {
      FirstTreesAt(b, cnt, md, n - 1, r);
    }
  }

  /** Node `x` is `n` or lies at most `h` levels below it. */
  predicate InSub(x: nat, n: nat, h: nat)
    decreases h, n
  {
    x == n || (h > 0 && x > n && InSub(x / 2, n, h - 1))
  }

  lemma {:induction false} InSubChild(x: nat, n: nat, c: nat, h: nat)
    requires n > 0 && h > 0 && c / 2 == n && InSub(x, c, h - 1)
    ensures InSub(x, n, h)
    decreases h
  {
    if x != c {
      InSubChild(x / 2, n, c, h - 1);
    }
  }

  lemma {:induction false} InSubAbove(x: nat, n: nat, h: nat)
    requires InSub(x, n, h)
    ensures n <= x
    decreases h
  {
  }

  /** Of two nodes above one node, the smaller lies above the parent of the larger. */
  lemma {:induction false} TwoAncestors(x: nat, n: nat, m: nat, h: nat)
    requires InSub(x, n, h) && InSub(x, m, h) && n < m
    ensures n <= m / 2
    decreases h
  {
    if x == m {
      InSubAbove(x / 2, n, h - 1);
    } else {
      TwoAncestors(x / 2, n, m, h - 1);
    }
  }

  lemma SiblingsDisjoint(x: nat, c: nat, h: nat)
    requires c >= 2 && InSub(x, c, h)
    ensures !InSub(x, SiblingOf(c), h)
  {
    if InSub(x, SiblingOf(c), h) {
      if c % 2 == 0 { TwoAncestors(x, c, c + 1, h); } else { TwoAncestors(x, c - 1, c, h); }
    }
  }

  /** Buffers that differ only outside a subtree give the same tree. */
  lemma {:induction false} TreeFrame(b: seq<Byte>, b': seq<Byte>, cnt: nat, n: nat, h: nat)
    requires n > 0
    requires forall x: nat | Val(b, cnt, x) != Val(b', cnt, x) :: !InSub(x, n, h)
    ensures TreeOf(b, cnt, n, h) == TreeOf(b', cnt, n, h)
    decreases h
  {
    assert Val(b, cnt, n) == Val(b', cnt, n);
    if h > 0 {
      forall x: nat | Val(b, cnt, x) != Val(b', cnt, x)
        ensures !InSub(x, 2 * n, h - 1) && !InSub(x, 2 * n + 1, h - 1)
      {
        if InSub(x, 2 * n, h - 1) { InSubChild(x, n, 2 * n, h); }
        if InSub(x, 2 * n + 1, h - 1) { InSubChild(x, n, 2 * n + 1, h); }
      }
      TreeFrame(b, b', cnt, 2 * n, h - 1);
      TreeFrame(b, b', cnt, 2 * n + 1, h - 1);
    }
  }

  /** The subtree of the `j`-th block of order `k` starts at node `(n << (h - k)) + j`. */
  lemma {:induction false} TreeOfAt(b: seq<Byte>, cnt: nat, n: nat, h: nat, k: nat, j: nat)
    requires k <= h && j < Pow2(h - k)
    ensures At(TreeOf(b, cnt, n, h), h, k, j) == TreeOf(b, cnt, Shl(n, h - k) + j, k)
    decreases h
  {
    if h > k {
      var half := Pow2(h - 1 - k);
      if j < half {
        TreeOfAt(b, cnt, 2 * n, h - 1, k, j);
      } else {
        TreeOfAt(b, cnt, 2 * n + 1, h - 1, k, j - half);
        ShlAdd(2 * n, 1, h - 1 - k);
        ShlPow2(0, h - 1 - k);
      }
    }
  }
}
