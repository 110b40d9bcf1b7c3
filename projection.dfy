/**
 * Element-wise views of a slice: the priorities a heap is ordered by, the
 * keys a lookup map indexes, the values a queue holds. The lemmas say how a
 * view follows the slice through the updates the heaps make to it.
 */
module Projection {
  import opened HeapOrder

  /** The key function of a queue whose items are their own keys. */
  function Identity<T>(x: T): T {
    x
  }

  /** f applied to every element of s, in order. */
  function Project<A, B>(s: seq<A>, f: A -> B): (r: seq<B>)
    ensures |r| == |s|
    ensures forall i {:trigger r[i]} :: 0 <= i < |s| ==> r[i] == f(s[i])
  {
    seq(|s|, i requires 0 <= i < |s| => f(s[i]))
  }

  /** Two slices that agree under f, slot by slot, have the same view. */
  lemma ProjectAgree<A, B>(s: seq<A>, t: seq<A>, f: A -> B)
    requires |s| == |t| && forall i :: 0 <= i < |s| ==> f(s[i]) == f(t[i])
    ensures Project(s, f) == Project(t, f)
  {
  }

  lemma ProjectSwapped<A, B>(s: seq<A>, f: A -> B, i: nat, j: nat)
    requires i < |s| && j < |s|
    ensures Project(Swapped(s, i, j), f) == Swapped(Project(s, f), i, j)
  {
  }

  lemma ProjectAppend<A, B>(s: seq<A>, f: A -> B, x: A)
    ensures Project(s + [x], f) == Project(s, f) + [f(x)]
  {
  }

  lemma ProjectPrefix<A, B>(s: seq<A>, f: A -> B, n: nat)
    requires n <= |s|
    ensures Project(s[..n], f) == Project(s, f)[..n]
  {
  }

  /** Overwriting one slot changes the view at that slot only, and the held
      views lose the old one and gain the new one. */
  lemma ProjectUpdate<A, B>(s: seq<A>, f: A -> B, k: nat, x: A)
    requires k < |s|
    ensures Project(s[k := x], f) == Project(s, f)[k := f(x)]
    ensures multiset(Project(s[k := x], f)) == multiset(Project(s, f)) - multiset{f(s[k])} + multiset{f(x)}
  {
    var v := Project(s, f);
    assert Project(s[k := x], f) == v[k := f(x)];
    assert multiset(v[k := f(x)]) == multiset(v) - multiset{v[k]} + multiset{f(x)};
  }
}
