/**
 * Heap order for an array-backed binary heap, as Go's container/heap keeps it.
 *
 * Every queue in this project stores its elements in a sequence and ranks them
 * with a caller-supplied "less" relation. The sift loops (up and down) of
 * container/heap are written out in each queue class; this module holds what
 * they have in common: the parent function, the heap-order predicate, the loop
 * invariants of the two sifts, and the lemmas that one step of either sift
 * keeps its invariant. It also proves what the heap order buys the caller:
 * the root is ranked first, and draining a queue yields comparator order.
 */
module HeapOrder {

  /** Go computes the parent of slot j as (j-1)/2, truncating toward zero, so
      the root is its own parent and up() stops there. */
  function Parent(j: nat): (p: nat)
    ensures j == 0 ==> p == 0
    ensures 0 < j ==> 2 * p + 1 <= j <= 2 * p + 2
  {
    if j == 0 then 0 else (j - 1) / 2
  }

  /** s with the elements at i and j exchanged. */
  function Swapped<R>(s: seq<R>, i: nat, j: nat): (r: seq<R>)
    requires i < |s| && j < |s|
    ensures |r| == |s| && r[i] == s[j] && r[j] == s[i]
    ensures forall k :: 0 <= k < |s| && k != i && k != j ==> r[k] == s[k]
  {
    s[i := s[j]][j := s[i]]
  }

  /** A swap of two slots below n leaves the slots from n on as they were. */
  lemma SwappedBelow<R>(s: seq<R>, i: nat, j: nat, n: nat)
    requires i < n && j < n && n <= |s|
    ensures Swapped(s, i, j)[n..] == s[n..]
  {
  }

  lemma SwappedMultiset<R>(s: seq<R>, i: nat, j: nat)
    requires i < |s| && j < |s|
    ensures multiset(Swapped(s, i, j)) == multiset(s)
  {
    if i != j {
      var t := s[i := s[j]];
      assert multiset(t) == multiset(s) - multiset{s[i]} + multiset{s[j]};
      assert multiset(t[j := s[i]]) == multiset(t) - multiset{t[j]} + multiset{s[i]};
    }
  }

  /** A strict weak order: irreflexive, transitive, and "neither ranks ahead
      of the other" is transitive too (stated as negative transitivity).
      Every comparator a queue is built with must be one. */
  ghost predicate StrictWeakOrder<R(!new)>(less: (R, R) -> bool) {
    && (forall x :: !less(x, x))
    && (forall x, y, z :: less(x, y) && less(y, z) ==> less(x, z))
    && (forall x, y, z :: !less(x, y) && !less(y, z) ==> !less(x, z))
  }

  /** No slot below n is ranked strictly ahead of its parent. */
  ghost predicate HeapOrderedUpTo<R>(s: seq<R>, less: (R, R) -> bool, n: nat)
    requires n <= |s|
  {
    forall k {:trigger Parent(k)} :: 0 < k < n ==> !less(s[k], s[Parent(k)])
  }

  ghost predicate HeapOrdered<R>(s: seq<R>, less: (R, R) -> bool) {
    HeapOrderedUpTo(s, less, |s|)
  }

  /** Invariant of up() at slot j: every edge below n holds except the one
      from j to its parent, and j's children do not outrank j's parent. */
  ghost predicate UpInv<R>(s: seq<R>, less: (R, R) -> bool, j: nat, n: nat)
    requires j < n <= |s|
  {
    && (forall k {:trigger Parent(k)} :: 0 < k < n && k != j ==> !less(s[k], s[Parent(k)]))
    && (0 < j ==> forall c {:trigger Parent(c)} :: 0 < c < n && Parent(c) == j ==> !less(s[c], s[Parent(j)]))
  }

  /** Invariant of down() started at i0 and now at i: every edge below n holds
      except those from i to its children and, while i is still i0, the one
      from i0 to its parent; i's children do not outrank i's parent. */
  ghost predicate DownInv<R>(s: seq<R>, less: (R, R) -> bool, i0: nat, i: nat, n: nat)
    requires i0 <= i <= n <= |s|
  {
    && (forall k {:trigger Parent(k)} :: 0 < k < n && Parent(k) != i && (k != i0 || i != i0) ==> !less(s[k], s[Parent(k)]))
    && (0 < i ==> forall c {:trigger Parent(c)} :: 0 < c < n && Parent(c) == i ==> !less(s[c], s[Parent(i)]))
  }

  lemma ChildParent(i: nat, c: nat)
    ensures (0 < c && Parent(c) == i) <==> (c == 2 * i + 1 || c == 2 * i + 2)
  {
  }

  /** One step of up(): slot j outranks its parent, so they are exchanged and
      the invariant moves to the parent. */
  lemma {:induction false} UpStep<R(!new)>(s: seq<R>, less: (R, R) -> bool, j: nat, n: nat)
    requires StrictWeakOrder(less)
    requires 0 < j < n <= |s| && UpInv(s, less, j, n)
    requires less(s[j], s[Parent(j)])
    ensures UpInv(Swapped(s, Parent(j), j), less, Parent(j), n)
  {
    var p := Parent(j);
    var t := Swapped(s, p, j);
    forall k | 0 < k < n && k != p
      ensures !less(t[k], t[Parent(k)])
    {
      if k == j {
        // the old parent now sits below the element that outranked it
      } else if Parent(k) == j {
        // a child of j now hangs below the old parent
        assert !less(s[k], s[p]);
      } else if Parent(k) == p {
        // j's sibling: it did not outrank the old parent, which is ranked
        // behind the element that moved up
        assert !less(s[k], s[p]);
        assert t[k] == s[k] && t[p] == s[j];
      } else {
        assert t[k] == s[k];
        assert Parent(k) != j && Parent(k) != p ==> t[Parent(k)] == s[Parent(k)];
      }
    }
    if 0 < p {
      var g := Parent(p);
      forall c | 0 < c < n && Parent(c) == p
        ensures !less(t[c], t[g])
      {
        assert t[g] == s[g];
        assert !less(s[p], s[g]);
        if c == j {
          assert t[c] == s[p];
        } else {
          assert t[c] == s[c];
          assert !less(s[c], s[p]);
        }
      }
    }
  }

  /** up() stops at the root or below a parent that is not outranked: then
      every edge below n holds. */
  lemma UpDone<R>(s: seq<R>, less: (R, R) -> bool, j: nat, n: nat)
    requires j < n <= |s| && UpInv(s, less, j, n)
    requires j == 0 || !less(s[j], s[Parent(j)])
    ensures HeapOrderedUpTo(s, less, n)
  {
  }

  /** One step of down(): the preferred child j of i outranks i, so they are
      exchanged and the invariant moves to j. */
  lemma {:induction false} DownStep<R(!new)>(s: seq<R>, less: (R, R) -> bool, i0: nat, i: nat, j: nat, n: nat)
    requires StrictWeakOrder(less)
    requires i0 <= i < n <= |s| && DownInv(s, less, i0, i, n)
    requires j < n && (j == 2 * i + 1 || j == 2 * i + 2)
    requires forall c :: 0 < c < n && Parent(c) == i ==> !less(s[c], s[j])
    requires less(s[j], s[i])
    ensures i0 <= j && DownInv(Swapped(s, i, j), less, i0, j, n)
  {
    ChildParent(i, j);
    var t := Swapped(s, i, j);
    forall k | 0 < k < n && Parent(k) != j && (k != i0 || j != i0)
      ensures !less(t[k], t[Parent(k)])
    {
      ChildParent(i, k);
      if k == j {
        // the element that moved down sits below the child that moved up
      } else if Parent(k) == i {
        // the other child of i did not outrank the preferred one
        assert t[k] == s[k];
      } else if k == i {
        // the child that moved up does not outrank i's parent
        assert t[Parent(k)] == s[Parent(k)];
        assert !less(s[j], s[Parent(i)]);
      } else {
        assert t[k] == s[k];
        assert t[Parent(k)] == s[Parent(k)];
      }
    }
    forall c | 0 < c < n && Parent(c) == j
      ensures !less(t[c], t[Parent(j)])
    {
      ChildParent(j, c);
      assert t[c] == s[c];
    }
  }

  /** down() stops at a slot none of whose children outranks it. If it moved,
      every edge below n holds; if it did not, what is left is up()'s work. */
  lemma DownDone<R(!new)>(s: seq<R>, less: (R, R) -> bool, i0: nat, i: nat, n: nat)
    requires i0 <= i <= n <= |s| && DownInv(s, less, i0, i, n)
    requires i < n ==> forall c :: 0 < c < n && Parent(c) == i ==> !less(s[c], s[i])
    requires i == n ==> i == i0
    ensures i != i0 || i0 == 0 ==> HeapOrderedUpTo(s, less, n)
    ensures i == i0 && i0 < n ==> UpInv(s, less, i0, n)
  {
  }

  /** The preferred child as down() picks it: the right one only when it
      outranks the left one. No child of i outranks it. */
  lemma PreferredChild<R(!new)>(s: seq<R>, less: (R, R) -> bool, i: nat, j: nat, n: nat)
    requires StrictWeakOrder(less)
    requires n <= |s| && 2 * i + 1 < n
    requires j == (if 2 * i + 2 < n && less(s[2 * i + 2], s[2 * i + 1]) then 2 * i + 2 else 2 * i + 1)
    ensures forall c :: 0 < c < n && Parent(c) == i ==> !less(s[c], s[j])
  {
    forall c | 0 < c < n && Parent(c) == i
      ensures !less(s[c], s[j])
    {
      ChildParent(i, c);
    }
  }

  /** When the preferred child does not outrank i, no child does. */
  lemma NoChildAhead<R(!new)>(s: seq<R>, less: (R, R) -> bool, i: nat, j: nat, n: nat)
    requires StrictWeakOrder(less)
    requires n <= |s| && i < n && j < n
    requires forall c :: 0 < c < n && Parent(c) == i ==> !less(s[c], s[j])
    requires !less(s[j], s[i])
    ensures forall c :: 0 < c < n && Parent(c) == i ==> !less(s[c], s[i])
  {
  }

  /** A leaf has no children below n. */
  lemma Leaf(i: nat, n: nat)
    requires n <= 2 * i + 1
    ensures forall c :: 0 < c < n ==> Parent(c) != i
  {
    forall c | 0 < c < n
      ensures Parent(c) != i
    {
      ChildParent(i, c);
    }
  }

  /** Overwriting one slot i of a heap (a priority changed in place, or the
      last element moved into a removed slot) leaves exactly the state that
      down() starting at i expects. */
  lemma {:induction false} ReplaceAt<R(!new)>(s: seq<R>, t: seq<R>, less: (R, R) -> bool, i: nat, n: nat)
    requires StrictWeakOrder(less)
    requires i <= n <= |s| && i < |s| && n <= |t| && HeapOrderedUpTo(s, less, n)
    requires forall k :: 0 <= k < n && k != i ==> t[k] == s[k]
    ensures DownInv(t, less, i, i, n)
  {
    forall k | 0 < k < n && Parent(k) != i && k != i
      ensures !less(t[k], t[Parent(k)])
    {
      assert t[k] == s[k] && t[Parent(k)] == s[Parent(k)];
    }
    if 0 < i {
      forall c | 0 < c < n && Parent(c) == i
        ensures !less(t[c], t[Parent(i)])
      {
        assert !less(s[c], s[i]) && !less(s[i], s[Parent(i)]);
        assert t[c] == s[c] && t[Parent(i)] == s[Parent(i)];
      }
    }
  }

  /** Appending to a heap leaves exactly the state that up() at the new last
      slot expects. */
  lemma AppendUpInv<R>(s: seq<R>, x: R, less: (R, R) -> bool)
    requires HeapOrdered(s, less)
    ensures UpInv(s + [x], less, |s|, |s| + 1)
  {
    var t := s + [x];
    forall k | 0 < k < |t| && k != |s|
      ensures !less(t[k], t[Parent(k)])
    {
      assert t[k] == s[k] && t[Parent(k)] == s[Parent(k)];
    }
    if 0 < |s| {
      forall c | 0 < c < |t|
        ensures Parent(c) != |s|
      {
        ChildParent(|s|, c);
      }
    }
  }

  /** Dropping the last slot keeps heap order. */
  lemma HeapOrderedPrefix<R>(s: seq<R>, less: (R, R) -> bool, n: nat)
    requires n <= |s| && HeapOrderedUpTo(s, less, n)
    ensures HeapOrdered(s[..n], less)
  {
    var t := s[..n];
    forall k | 0 < k < n
      ensures !less(t[k], t[Parent(k)])
    {
      assert t[k] == s[k] && t[Parent(k)] == s[Parent(k)];
    }
  }

  /** Splitting off the last slot: what Pop leaves and what it takes. */
  lemma RemoveLast<R>(s: seq<R>, n: nat)
    requires n + 1 == |s|
    ensures multiset(s[..n]) == multiset(s) - multiset{s[n]}
    ensures s[n..] == [s[n]]
  {
    assert s == s[..n] + [s[n]];
  }

  /** e is in m and nothing in m is ranked strictly ahead of it. */
  ghost predicate IsFirst<R>(e: R, m: multiset<R>, less: (R, R) -> bool) {
    e in m && forall x :: x in m ==> !less(x, e)
  }

  /** In a heap no element is ranked strictly ahead of the root. */
  lemma {:induction false} RootIsFirst<R(!new)>(s: seq<R>, less: (R, R) -> bool)
    requires StrictWeakOrder(less) && HeapOrdered(s, less) && 0 < |s|
    ensures forall k :: 0 <= k < |s| ==> !less(s[k], s[0])
    ensures IsFirst(s[0], multiset(s), less)
  {
    forall k | 0 <= k < |s|
      ensures !less(s[k], s[0])
    {
      NotAheadOfRoot(s, less, k);
    }
    forall x | x in multiset(s)
      ensures !less(x, s[0])
    {
      var k :| 0 <= k < |s| && s[k] == x;
      NotAheadOfRoot(s, less, k);
    }
  }

  /** When x is ranked strictly ahead of everything else in m, x is the only
      first-ranked element of m. */
  lemma FirstIsUnique<R>(e: R, m: multiset<R>, less: (R, R) -> bool, x: R)
    requires IsFirst(e, m, less) && x in m
    requires forall y :: y in m && y != x ==> less(x, y)
    ensures e == x
  {
  }

  lemma {:induction false} NotAheadOfRoot<R(!new)>(s: seq<R>, less: (R, R) -> bool, k: nat)
    requires StrictWeakOrder(less) && HeapOrdered(s, less) && k < |s|
    ensures !less(s[k], s[0])
    decreases k
  {
    if k > 0 {
      NotAheadOfRoot(s, less, Parent(k));
      assert !less(s[k], s[Parent(k)]);
    }
  }

  /** out is an order in which repeated removal of a first-ranked element can
      empty m: each element is first among those still present. */
  ghost predicate Drains<R>(m: multiset<R>, out: seq<R>, less: (R, R) -> bool)
    decreases |out|
  {
    if out == [] then m == multiset{}
    else IsFirst(out[0], m, less) && Drains(m - multiset{out[0]}, out[1..], less)
  }

  /** Sorted extraction: any drain order holds exactly the elements of m, and
      no element comes out after one it is ranked strictly ahead of. */
  lemma {:induction false} DrainIsSorted<R(!new)>(m: multiset<R>, out: seq<R>, less: (R, R) -> bool)
    requires Drains(m, out, less)
    ensures multiset(out) == m
    ensures forall i, j :: 0 <= i < j < |out| ==> !less(out[j], out[i])
    decreases |out|
  {
    if out != [] {
      var rest := m - multiset{out[0]};
      DrainIsSorted(rest, out[1..], less);
      assert out == [out[0]] + out[1..];
      forall i, j | 0 <= i < j < |out|
        ensures !less(out[j], out[i])
      {
        if i == 0 {
          assert out[j] in multiset(out[1..]);
          assert out[j] in m;
        } else {
          assert out[j] == out[1..][j - 1] && out[i] == out[1..][i - 1];
        }
      }
    }
  }
}
