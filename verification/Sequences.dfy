/** Sequences without repetition. */
module Sequences {

  predicate NoDup(s: seq<nat>) {
    forall j, k | 0 <= j < k < |s| :: s[j] != s[k]
  }

  lemma NoDupAppend(a: seq<nat>, b: seq<nat>)
    requires NoDup(a) && NoDup(b) && forall x | x in a :: x !in b
    ensures NoDup(a + b)
  {
    forall j, k | 0 <= j < k < |a + b|
      ensures (a + b)[j] != (a + b)[k]
    {
      if j < |a| <= k {
        assert a[j] in a && b[k - |a|] in b;
      }
    }
  }

  /** The sequence without the first occurrence of x. */
  function Remove(s: seq<nat>, x: nat): seq<nat> {
    if s == [] then [] else if s[0] == x then s[1..] else [s[0]] + Remove(s[1..], x)
  }

  lemma {:induction false} RemoveOne(s: seq<nat>, x: nat)
    requires NoDup(s) && x in s
    ensures NoDup(Remove(s, x)) && |Remove(s, x)| == |s| - 1
    ensures forall y: nat :: y in Remove(s, x) <==> y in s && y != x
  {
    assert s == [s[0]] + s[1..];
    if s[0] != x {
      RemoveOne(s[1..], x);
      NoDupAppend([s[0]], Remove(s[1..], x));
    }
  }
}
