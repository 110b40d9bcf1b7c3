/**
 * apqs: a priority queue whose items are their own keys and whose
 * priorities come from a priority function: Enqueue and Refresh compute an
 * item's priority themselves. Each element carries a sequence number from a
 * per-queue counter; Refresh issues a fresh one, and Clear restarts the
 * counter.
 *
 * The Go package splits the state between PriorityQueue (the counter and,
 * by its use in Enqueue and Refresh, the priority function) and heapImpl
 * (the slice, the lookup map and the comparator); here one class holds all
 * of it. The sift loops of Go's container/heap are written out as Up, Down,
 * HeapPush, HeapPop, HeapFix and HeapRemove.
 *
 * Go's New as written never stores the priority function it is given; the
 * constructor here stores it, and NewAsWritten records what the source does.
 */
module Apqs {
  import opened HeapOrder
  import opened KeyIndex
  import opened Elems
  import opened Wrappers
  import opened Projection

  class PriorityQueue<T(==, !new)> {
    const lessFunc: (Elem<T>, Elem<T>) -> bool
    const prioFunc: T -> int
    var elems: seq<Elem<T>>
    var lookup: map<T, int>
    /** The last sequence number the counter handed out (0 before the first). */
    var counter: int

    /** What holds between the steps of a heap operation: the comparator is
        usable, the lookup map indexes every slot by its item, and every
        sequence number was issued by the counter. */
    ghost predicate Indexed()
      reads this
    {
      && StrictWeakOrder(lessFunc)
      && Indexes(Keys(elems, Identity), lookup)
      && (forall i :: 0 <= i < |elems| ==> elems[i].sequence <= counter)
    }

    /** What holds after every public call: in addition, heap order. */
    ghost predicate Valid()
      reads this
    {
      Indexed() && HeapOrdered(elems, lessFunc)
    }

    /** The elements held, without their arrangement in the slice. */
    ghost function Contents(): multiset<Elem<T>>
      reads this
    {
      multiset(elems)
    }

    /** New, with the priority function stored (see NewAsWritten). */
    constructor (lessFunc: (Elem<T>, Elem<T>) -> bool, prioFunc: T -> int)
      requires StrictWeakOrder(lessFunc)
      ensures Valid()
      ensures this.lessFunc == lessFunc && this.prioFunc == prioFunc
      ensures elems == [] && lookup == map[] && counter == 0
    {
      this.lessFunc := lessFunc;
      this.prioFunc := prioFunc;
      elems := [];
      lookup := map[];
      counter := 0;
    }

    /** heapImpl.Less: slot i is ranked strictly ahead of slot j. No slot
        is ahead of itself, and in a valid queue no slot is ahead of the
        root, which is why Peek reads slot 0. */
    function Less(i: nat, j: nat): (r: bool)
      reads this
      requires i < |elems| && j < |elems|
      ensures StrictWeakOrder(lessFunc) && i == j ==> !r
      ensures Valid() && j == 0 ==> !r
    {
      assert Valid() && j == 0 ==> !lessFunc(elems[i], elems[0]) by {
        if Valid() && j == 0 {
          NotAheadOfRoot(elems, lessFunc, i);
        }
      }
      lessFunc(elems[i], elems[j])
    }

    /** heapImpl.Swap: exchange two slots and point both keys at their new
        slots. */
    method Swap(i: nat, j: nat)
      requires Indexed() && i < |elems| && j < |elems|
      modifies this
      ensures Indexed()
      ensures elems == Swapped(old(elems), i, j)
      ensures lookup == old(lookup)[old(elems)[j].item := i][old(elems)[i].item := j]
      ensures lookup.Keys == old(lookup.Keys) && counter == old(counter)
      ensures multiset(elems) == old(multiset(elems))
    {
      ghost var ks := Keys(elems, Identity);
      KeysSwapped(elems, Identity, i, j);
      IndexesSwap(ks, lookup, i, j);
      SwappedMultiset(elems, i, j);
      elems := elems[i := elems[j]][j := elems[i]];
      lookup := lookup[elems[i].item := i];
      lookup := lookup[elems[j].item := j];
    }

    /** heapImpl.Push: index the new key at the end, then append. */
    method Push(e: Elem<T>)
      requires Indexed() && e.item !in lookup && e.sequence <= counter
      modifies this
      ensures Indexed()
      ensures elems == old(elems) + [e]
      ensures lookup == old(lookup)[e.item := old(|elems|)]
      ensures counter == old(counter)
    {
      KeysAppend(elems, Identity, e);
      IndexesPush(Keys(elems, Identity), lookup, e.item);
      lookup := lookup[e.item := |elems|];
      elems := elems + [e];
    }

    /** heapImpl.Pop: drop the last slot and delete its key. */
    method Pop() returns (e: Elem<T>)
      requires Indexed() && 0 < |elems|
      modifies this
      ensures Indexed()
      ensures e == old(elems)[old(|elems|) - 1] && elems == old(elems)[..old(|elems|) - 1]
      ensures multiset(elems) == old(multiset(elems)) - multiset{e}
      ensures HeapOrderedUpTo(old(elems), lessFunc, |elems|) ==> HeapOrdered(elems, lessFunc)
      ensures lookup == old(lookup) - {e.item}
      ensures counter == old(counter)
    {
      var n := |elems| - 1;
      e := elems[n];
      ghost var s := elems;
      assert Indexes(Keys(s[..n], Identity), lookup - {e.item}) by {
        KeysPrefix(s, Identity, n);
        IndexesPop(Keys(s, Identity), lookup);
      }
      assert multiset(s[..n]) == multiset(s) - multiset{e} by {
        RemoveLast(s, n);
      }
      assert HeapOrderedUpTo(s, lessFunc, n) ==> HeapOrdered(s[..n], lessFunc) by {
        if HeapOrderedUpTo(s, lessFunc, n) {
          HeapOrderedPrefix(s, lessFunc, n);
        }
      }
      elems := elems[..n];
      lookup := lookup - {e.item};
    }

    /** container/heap's up: move slot j0 toward the root while it outranks
        its parent. Only slots below n take part. */
    method Up(j0: nat, ghost n: nat)
      requires Indexed() && j0 < n <= |elems| && UpInv(elems, lessFunc, j0, n)
      modifies this
      ensures Indexed() && |elems| == old(|elems|) && HeapOrderedUpTo(elems, lessFunc, n)
      ensures elems[n..] == old(elems[n..]) && multiset(elems) == old(multiset(elems))
      ensures lookup.Keys == old(lookup.Keys) && counter == old(counter)
    {
      var j: nat := j0;
      while true
        invariant Indexed() && j < n <= |elems| == old(|elems|)
        invariant UpInv(elems, lessFunc, j, n)
        invariant elems[n..] == old(elems[n..]) && multiset(elems) == old(multiset(elems))
        invariant lookup.Keys == old(lookup.Keys) && counter == old(counter)
        decreases j
      {
        var i := Parent(j);
        if i == j || !Less(j, i) {
          UpDone(elems, lessFunc, j, n);
          break;
        }
        UpStep(elems, lessFunc, j, n);
        SwappedBelow(elems, i, j, n);
        Swap(i, j);
        j := i;
      }
    }

    /** container/heap's down: move slot i0 away from the root while its
        preferred child outranks it. Only slots below n take part. Reports
        whether the element moved. */
    method Down(i0: nat, n: nat) returns (moved: bool)
      requires Indexed() && i0 <= n <= |elems| && DownInv(elems, lessFunc, i0, i0, n)
      modifies this
      ensures Indexed() && |elems| == old(|elems|)
      ensures moved || i0 == 0 ==> HeapOrderedUpTo(elems, lessFunc, n)
      ensures !moved && i0 < n ==> UpInv(elems, lessFunc, i0, n)
      ensures elems[n..] == old(elems[n..]) && multiset(elems) == old(multiset(elems))
      ensures lookup.Keys == old(lookup.Keys) && counter == old(counter)
    {
      var i: nat := i0;
      while true
        invariant Indexed() && i0 <= i <= n <= |elems| == old(|elems|)
        invariant i == n ==> i == i0
        invariant DownInv(elems, lessFunc, i0, i, n)
        invariant elems[n..] == old(elems[n..]) && multiset(elems) == old(multiset(elems))
        invariant lookup.Keys == old(lookup.Keys) && counter == old(counter)
        decreases n - i
      {
        var j1 := 2 * i + 1;
        if j1 >= n {
          Leaf(i, n);
          break;
        }
        var j := j1;
        var j2 := j1 + 1;
        if j2 < n && Less(j2, j1) {
          j := j2;
        }
        if !Less(j, i) {
          NoChildAheadOf(i, j, n);
          break;
        }
        SwapDown(i0, i, j, n);
        i := j;
      }
      DownDone(elems, lessFunc, i0, i, n);
      moved := i > i0;
    }

    /** down() stops at slot i when its preferred child j does not outrank
        it: then no child of i does. */
    lemma NoChildAheadOf(i: nat, j: nat, n: nat)
      requires StrictWeakOrder(lessFunc) && n <= |elems| && 2 * i + 1 < n
      requires j == (if 2 * i + 2 < n && Less(2 * i + 2, 2 * i + 1) then 2 * i + 2 else 2 * i + 1)
      requires !Less(j, i)
      ensures forall c :: 0 < c < n && Parent(c) == i ==> !lessFunc(elems[c], elems[i])
    {
      PreferredChild(elems, lessFunc, i, j, n);
      NoChildAhead(elems, lessFunc, i, j, n);
    }

    /** One exchange of down(): slot i and its preferred child j, which
        outranks it, change places. */
    method SwapDown(i0: nat, i: nat, j: nat, n: nat)
      requires Indexed() && i0 <= i && n <= |elems| && 2 * i + 1 < n
      requires j == (if 2 * i + 2 < n && Less(2 * i + 2, 2 * i + 1) then 2 * i + 2 else 2 * i + 1)
      requires Less(j, i) && DownInv(elems, lessFunc, i0, i, n)
      modifies this
      ensures Indexed() && |elems| == old(|elems|)
      ensures DownInv(elems, lessFunc, i0, j, n)
      ensures elems[n..] == old(elems[n..]) && multiset(elems) == old(multiset(elems))
      ensures lookup.Keys == old(lookup.Keys) && counter == old(counter)
    {
      assert DownInv(Swapped(elems, i, j), lessFunc, i0, j, n) by {
        PreferredChild(elems, lessFunc, i, j, n);
        DownStep(elems, lessFunc, i0, i, j, n);
      }
      SwappedBelow(elems, i, j, n);
      Swap(i, j);
    }

    /** container/heap's Push: append, then move the new last slot up. */
    method HeapPush(e: Elem<T>)
      requires Valid() && e.item !in lookup && e.sequence <= counter
      modifies this
      ensures Valid()
      ensures multiset(elems) == old(multiset(elems)) + multiset{e}
      ensures lookup.Keys == old(lookup.Keys) + {e.item} && counter == old(counter)
    {
      AppendUpInv(elems, e, lessFunc);
      Push(e);
      Up(|elems| - 1, |elems|);
    }

    /** container/heap's Pop: exchange the root with the last slot, move the
        new root down over the others, then drop the last slot. */
    method HeapPop() returns (e: Elem<T>)
      requires Valid() && 0 < |elems|
      modifies this
      ensures Valid()
      ensures e == old(elems)[0]
      ensures multiset(elems) == old(multiset(elems)) - multiset{e}
      ensures lookup.Keys == old(lookup.Keys) - {e.item} && counter == old(counter)
    {
      var n := |elems| - 1;
      ghost var root := elems[0];
      assert DownInv(Swapped(elems, 0, n), lessFunc, 0, 0, n) by {
        ReplaceAt(elems, Swapped(elems, 0, n), lessFunc, 0, n);
      }
      Swap(0, n);
      assert elems[n..] == [root];
      var _ := Down(0, n);
      e := Pop();
    }

    /** The step container/heap's Fix and Remove share: slot i may be out of
        place among the first n slots; move it down, or up if it did not move
        down. */
    method Settle(i: nat, n: nat)
      requires Indexed() && i < n <= |elems| && DownInv(elems, lessFunc, i, i, n)
      modifies this
      ensures Indexed() && |elems| == old(|elems|) && HeapOrderedUpTo(elems, lessFunc, n)
      ensures elems[n..] == old(elems[n..]) && multiset(elems) == old(multiset(elems))
      ensures lookup.Keys == old(lookup.Keys) && counter == old(counter)
    {
      var moved := Down(i, n);
      if !moved {
        Up(i, n);
      }
    }

    /** container/heap's Fix: re-establish heap order after slot i changed. */
    method HeapFix(i: nat)
      requires Indexed() && i < |elems| && DownInv(elems, lessFunc, i, i, |elems|)
      modifies this
      ensures Valid()
      ensures multiset(elems) == old(multiset(elems))
      ensures lookup.Keys == old(lookup.Keys) && counter == old(counter)
    {
      Settle(i, |elems|);
    }

    /** The first half of container/heap's Remove: exchange slot i with the
        last slot and restore heap order over the others, so that the last
        slot holds the old slot i. */
    method MoveToEnd(i: nat)
      requires Valid() && i < |elems|
      modifies this
      ensures Indexed() && |elems| == old(|elems|) && elems[|elems| - 1] == old(elems)[i]
      ensures HeapOrderedUpTo(elems, lessFunc, |elems| - 1)
      ensures multiset(elems) == old(multiset(elems))
      ensures lookup.Keys == old(lookup.Keys) && counter == old(counter)
    {
      var n := |elems| - 1;
      if n != i {
        ghost var target := elems[i];
        assert DownInv(Swapped(elems, i, n), lessFunc, i, i, n) by {
          ReplaceAt(elems, Swapped(elems, i, n), lessFunc, i, n);
        }
        Swap(i, n);
        assert elems[n..] == [target];
        Settle(i, n);
        assert elems[n] == elems[n..][0];
      }
    }

    /** container/heap's Remove: move slot i to the end, then drop the last
        slot. */
    method HeapRemove(i: nat) returns (e: Elem<T>)
      requires Valid() && i < |elems|
      modifies this
      ensures Valid()
      ensures e == old(elems)[i]
      ensures multiset(elems) == old(multiset(elems)) - multiset{e}
      ensures lookup.Keys == old(lookup.Keys) - {e.item} && counter == old(counter)
    {
      MoveToEnd(i);
      e := Pop();
    }

    /** Clear: empty slice, empty map, and a new counter. */
    method Clear()
      requires Valid()
      modifies this
      ensures Valid()
      ensures elems == [] && lookup == map[] && counter == 0
    {
      elems := [];
      lookup := map[];
      counter := 0;
    }

    /** Enqueue: the item's priority from the priority function, the next
        sequence number, then a heap push. The source does not check whether
        the item is already present; the model requires it to be new. */
    method Enqueue(item: T)
      requires Valid() && item !in lookup
      modifies this
      ensures Valid()
      ensures counter == old(counter) + 1
      ensures Contents() == old(Contents()) + multiset{Elem(item, prioFunc(item), counter)}
      ensures forall x :: x in old(Contents()) ==> x.sequence < counter
      ensures lookup.Keys == old(lookup.Keys) + {item}
      ensures Len() == old(Len()) + 1 && Contains(item)
    {
      counter := counter + 1;
      var elem := Elem(item, prioFunc(item), counter);
      HeapPush(elem);
    }

    /** Dequeue: None when empty; otherwise the root, which is ranked first. */
    method Dequeue() returns (r: Option<T>)
      requires Valid()
      modifies this
      ensures Valid()
      ensures old(|elems|) == 0 ==> r == None && unchanged(this)
      ensures old(|elems|) > 0 ==>
        && r == Some(old(elems)[0].item)
        && IsFirst(old(elems)[0], old(Contents()), lessFunc)
        && Contents() == old(Contents()) - multiset{old(elems)[0]}
        && lookup.Keys == old(lookup.Keys) - {old(elems)[0].item}
        && counter == old(counter)
    {
      if |elems| == 0 {
        return None;
      }
      RootIsFirst(elems, lessFunc);
      var elem := HeapPop();
      r := Some(elem.item);
    }

    /** Peek: None when empty; otherwise the item of a first-ranked element. */
    function Peek(): (r: Option<T>)
      reads this
      requires Valid()
      ensures r.None? <==> |elems| == 0
      ensures r.Some? ==> r.value == elems[0].item && IsFirst(elems[0], Contents(), lessFunc)
    {
      if |elems| == 0 then None
      else
        RootIsFirst(elems, lessFunc);
        Some(elems[0].item)
    }

    /** Refresh: an absent item changes nothing. A present item's slot is
        overwritten with its recomputed priority and a fresh sequence number,
        then fixed. */
    method Refresh(item: T) returns (ok: bool)
      requires Valid()
      modifies this
      ensures Valid()
      ensures ok == (item in old(lookup))
      ensures !ok ==> unchanged(this)
      ensures ok ==>
        && counter == old(counter) + 1
        && Contents() == old(Contents()) - multiset{old(elems)[old(lookup)[item]]}
                                         + multiset{Elem(item, prioFunc(item), counter)}
        && lookup.Keys == old(lookup.Keys)
    {
      if item !in lookup {
        return false;
      }
      var loc := lookup[item];
      counter := counter + 1;
      var elem := Elem(item, prioFunc(item), counter);
      ghost var before := elems;
      KeysSameKey(elems, Identity, loc, elem);
      ReplaceAt(elems, elems[loc := elem], lessFunc, loc, |elems|);
      elems := elems[loc := elem];
      assert multiset(elems) == multiset(before) - multiset{before[loc]} + multiset{elem};
      HeapFix(loc);
      ok := true;
    }

    /** Delete: an absent item changes nothing; a present item's element is
        removed through heap Remove. */
    method Delete(item: T) returns (ok: bool)
      requires Valid()
      modifies this
      ensures Valid()
      ensures ok == (item in old(lookup))
      ensures !ok ==> unchanged(this)
      ensures ok ==>
        && Contents() == old(Contents()) - multiset{old(elems)[old(lookup)[item]]}
        && lookup.Keys == old(lookup.Keys) - {item}
        && Len() == old(Len()) - 1 && !Contains(item)
        && counter == old(counter)
    {
      if item !in lookup {
        return false;
      }
      var loc := lookup[item];
      var e := HeapRemove(loc);
      ok := true;
    }

    /** Len: the number of elements, which is also the number of distinct
        items. */
    function Len(): (n: int)
      reads this
      requires Valid()
      ensures n == |Contents()| == |lookup|
    {
      IndexesShape(Keys(elems, Identity), lookup);
      |elems|
    }

    /** Contains: whether the item is stored. */
    function Contains(item: T): (b: bool)
      reads this
      requires Valid()
      ensures b <==> exists i :: 0 <= i < |elems| && elems[i].item == item
    {
      assert forall i :: 0 <= i < |elems| ==> Keys(elems, Identity)[i] == elems[i].item;
      item in lookup
    }
  }

  /** What Go's New leaves in the priority-function field, as written: it
      builds the heap with the comparator and never assigns the priority
      function it was given, so the field stays nil (None). */
  function NewAsWritten<T>(lessFunc: (Elem<T>, Elem<T>) -> bool, prioFunc: T -> int): (field: Option<T -> int>)
    ensures field.None?
  {
    None
  }

  /** The priority Enqueue and Refresh compute from the field: None stands
      for the run-time panic of calling a nil function. */
  function PriorityFrom<T>(field: Option<T -> int>, item: T): (p: Option<int>)
    ensures p.Some? <==> field.Some?
    ensures field.Some? ==> p.value == field.value(item)
  {
    match field
    case None => None
    case Some(f) => Some(f(item))
  }

  /** As written, every Enqueue and Refresh on a queue from New fails,
      whatever priority function New was given; had New stored it, each
      would compute exactly that function's priority. */
  lemma NewAsWrittenCannotPrioritize<T>(lessFunc: (Elem<T>, Elem<T>) -> bool, prioFunc: T -> int, item: T)
    ensures PriorityFrom(NewAsWritten(lessFunc, prioFunc), item) == None
    ensures PriorityFrom(Some(prioFunc), item) == Some(prioFunc(item))
  {
  }
}
