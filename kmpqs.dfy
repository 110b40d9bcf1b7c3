/**
 * kmpqs: a priority queue of (item, priority) pairs with a key function, so
 * that an element can be found by its item's key for Update, Delete and
 * Contains. Each element carries a sequence number from a per-queue counter;
 * Update issues a fresh one, and Clear restarts the counter.
 *
 * The Go package splits the state between PriorityQueue (the counter) and
 * heapImpl (the slice, the lookup map and the two functions); here one class
 * holds all of it. The sift loops that Go's container/heap runs over
 * heapImpl's Len/Less/Swap/Push/Pop are written out as Up, Down, HeapPush,
 * HeapPop, HeapFix and HeapRemove.
 */
module Kmpqs {
  import opened HeapOrder
  import opened KeyIndex
  import opened Elems
  import opened Wrappers

  class PriorityQueue<K(==), T(!new)> {
    const lessFunc: (Elem<T>, Elem<T>) -> bool
    const keyFunc: T -> K
    var elems: seq<Elem<T>>
    var lookup: map<K, int>
    /** The last sequence number the counter handed out (0 before the first). */
    var counter: int

    /** What holds between the steps of a heap operation: the comparator is
        usable, the lookup map indexes every slot by its key, and every
        sequence number was issued by the counter. */
    ghost predicate Indexed()
      reads this
    {
      && StrictWeakOrder(lessFunc)
      && Indexes(Keys(elems, keyFunc), lookup)
      && (forall i :: 0 <= i < |elems| ==> elems[i].sequence <= counter)
    }

    /** What holds after every public call: in addition, heap order. */
    ghost predicate Valid()
      reads this
    {
      Indexed() && HeapOrdered(elems, lessFunc)
    }

    /** The elements held, without their arrangement in the slice. */
    ghost function Contents(): multiset<Elem<T>>
      reads this
    {
      multiset(elems)
    }

    constructor (lessFunc: (Elem<T>, Elem<T>) -> bool, keyFunc: T -> K)
      requires StrictWeakOrder(lessFunc)
      ensures Valid()
      ensures this.lessFunc == lessFunc && this.keyFunc == keyFunc
      ensures elems == [] && lookup == map[] && counter == 0
    {
      this.lessFunc := lessFunc;
      this.keyFunc := keyFunc;
      elems := [];
      lookup := map[];
      counter := 0;
    }

    /** heapImpl.Less: slot i is ranked strictly ahead of slot j. No slot
        is ahead of itself, and in a valid queue no slot is ahead of the
        root, which is why Peek reads slot 0. */
    function Less(i: nat, j: nat): (r: bool)
      reads this
      requires i < |elems| && j < |elems|
      ensures StrictWeakOrder(lessFunc) && i == j ==> !r
      ensures Valid() && j == 0 ==> !r
    {
      assert Valid() && j == 0 ==> !lessFunc(elems[i], elems[0]) by {
        if Valid() && j == 0 {
          NotAheadOfRoot(elems, lessFunc, i);
        }
      }
      lessFunc(elems[i], elems[j])
    }

    /** heapImpl.Swap: exchange two slots and point both keys at their new
        slots. */
    method Swap(i: nat, j: nat)
      requires Indexed() && i < |elems| && j < |elems|
      modifies this
      ensures Indexed()
      ensures elems == Swapped(old(elems), i, j)
      ensures lookup == old(lookup)[keyFunc(old(elems)[j].item) := i][keyFunc(old(elems)[i].item) := j]
      ensures lookup.Keys == old(lookup.Keys) && counter == old(counter)
      ensures multiset(elems) == old(multiset(elems))
    {
      ghost var ks := Keys(elems, keyFunc);
      KeysSwapped(elems, keyFunc, i, j);
      IndexesSwap(ks, lookup, i, j);
      SwappedMultiset(elems, i, j);
      elems := elems[i := elems[j]][j := elems[i]];
      lookup := lookup[keyFunc(elems[i].item) := i];
      lookup := lookup[keyFunc(elems[j].item) := j];
    }

    /** heapImpl.Push: index the new key at the end, then append. */
    method Push(e: Elem<T>)
      requires Indexed() && keyFunc(e.item) !in lookup && e.sequence <= counter
      modifies this
      ensures Indexed()
      ensures elems == old(elems) + [e]
      ensures lookup == old(lookup)[keyFunc(e.item) := old(|elems|)]
      ensures counter == old(counter)
    {
      KeysAppend(elems, keyFunc, e);
      IndexesPush(Keys(elems, keyFunc), lookup, keyFunc(e.item));
      lookup := lookup[keyFunc(e.item) := |elems|];
      elems := elems + [e];
    }

    /** heapImpl.Pop: drop the last slot and delete its key. */
    method Pop() returns (e: Elem<T>)
      requires Indexed() && 0 < |elems|
      modifies this
      ensures Indexed()
      ensures e == old(elems)[old(|elems|) - 1] && elems == old(elems)[..old(|elems|) - 1]
      ensures multiset(elems) == old(multiset(elems)) - multiset{e}
      ensures HeapOrderedUpTo(old(elems), lessFunc, |elems|) ==> HeapOrdered(elems, lessFunc)
      ensures lookup == old(lookup) - {keyFunc(e.item)}
      ensures counter == old(counter)
    {
      var n := |elems| - 1;
      e := elems[n];
      ghost var s := elems;
      assert Indexes(Keys(s[..n], keyFunc), lookup - {keyFunc(e.item)}) by {
        KeysPrefix(s, keyFunc, n);
        IndexesPop(Keys(s, keyFunc), lookup);
      }
      assert multiset(s[..n]) == multiset(s) - multiset{e} by {
        RemoveLast(s, n);
      }
      assert HeapOrderedUpTo(s, lessFunc, n) ==> HeapOrdered(s[..n], lessFunc) by {
        if HeapOrderedUpTo(s, lessFunc, n) {
          HeapOrderedPrefix(s, lessFunc, n);
        }
      }
      elems := elems[..n];
      lookup := lookup - {keyFunc(e.item)};
    }

    /** container/heap's up: move slot j0 toward the root while it outranks
        its parent. Only slots below n take part. */
    method Up(j0: nat, ghost n: nat)
      requires Indexed() && j0 < n <= |elems| && UpInv(elems, lessFunc, j0, n)
      modifies this
      ensures Indexed() && |elems| == old(|elems|) && HeapOrderedUpTo(elems, lessFunc, n)
      ensures elems[n..] == old(elems[n..]) && multiset(elems) == old(multiset(elems))
      ensures lookup.Keys == old(lookup.Keys) && counter == old(counter)
    {
      var j: nat := j0;
      while true
        invariant Indexed() && j < n <= |elems| == old(|elems|)
        invariant UpInv(elems, lessFunc, j, n)
        invariant elems[n..] == old(elems[n..]) && multiset(elems) == old(multiset(elems))
        invariant lookup.Keys == old(lookup.Keys) && counter == old(counter)
        decreases j
      {
        var i := Parent(j);
        if i == j || !Less(j, i) {
          UpDone(elems, lessFunc, j, n);
          break;
        }
        UpStep(elems, lessFunc, j, n);
        SwappedBelow(elems, i, j, n);
        Swap(i, j);
        j := i;
      }
    }

    /** container/heap's down: move slot i0 away from the root while its
        preferred child outranks it. Only slots below n take part. Reports
        whether the element moved. */
    method Down(i0: nat, n: nat) returns (moved: bool)
      requires Indexed() && i0 <= n <= |elems| && DownInv(elems, lessFunc, i0, i0, n)
      modifies this
      ensures Indexed() && |elems| == old(|elems|)
      ensures moved || i0 == 0 ==> HeapOrderedUpTo(elems, lessFunc, n)
      ensures !moved && i0 < n ==> UpInv(elems, lessFunc, i0, n)
      ensures elems[n..] == old(elems[n..]) && multiset(elems) == old(multiset(elems))
      ensures lookup.Keys == old(lookup.Keys) && counter == old(counter)
    {
      var i: nat := i0;
      while true
        invariant Indexed() && i0 <= i <= n <= |elems| == old(|elems|)
        invariant i == n ==> i == i0
        invariant DownInv(elems, lessFunc, i0, i, n)
        invariant elems[n..] == old(elems[n..]) && multiset(elems) == old(multiset(elems))
        invariant lookup.Keys == old(lookup.Keys) && counter == old(counter)
        decreases n - i
      {
        var j1 := 2 * i + 1;
        if j1 >= n {
          Leaf(i, n);
          break;
        }
        var j := j1;
        var j2 := j1 + 1;
        if j2 < n && Less(j2, j1) {
          j := j2;
        }
        if !Less(j, i) {
          NoChildAheadOf(i, j, n);
          break;
        }
        SwapDown(i0, i, j, n);
        i := j;
      }
      DownDone(elems, lessFunc, i0, i, n);
      moved := i > i0;
    }

    /** down() stops at slot i when its preferred child j does not outrank
        it: then no child of i does. */
    lemma NoChildAheadOf(i: nat, j: nat, n: nat)
      requires StrictWeakOrder(lessFunc) && n <= |elems| && 2 * i + 1 < n
      requires j == (if 2 * i + 2 < n && Less(2 * i + 2, 2 * i + 1) then 2 * i + 2 else 2 * i + 1)
      requires !Less(j, i)
      ensures forall c :: 0 < c < n && Parent(c) == i ==> !lessFunc(elems[c], elems[i])
    {
      PreferredChild(elems, lessFunc, i, j, n);
      NoChildAhead(elems, lessFunc, i, j, n);
    }

    /** One exchange of down(): slot i and its preferred child j, which
        outranks it, change places. */
    method SwapDown(i0: nat, i: nat, j: nat, n: nat)
      requires Indexed() && i0 <= i && n <= |elems| && 2 * i + 1 < n
      requires j == (if 2 * i + 2 < n && Less(2 * i + 2, 2 * i + 1) then 2 * i + 2 else 2 * i + 1)
      requires Less(j, i) && DownInv(elems, lessFunc, i0, i, n)
      modifies this
      ensures Indexed() && |elems| == old(|elems|)
      ensures DownInv(elems, lessFunc, i0, j, n)
      ensures elems[n..] == old(elems[n..]) && multiset(elems) == old(multiset(elems))
      ensures lookup.Keys == old(lookup.Keys) && counter == old(counter)
    {
      assert DownInv(Swapped(elems, i, j), lessFunc, i0, j, n) by {
        PreferredChild(elems, lessFunc, i, j, n);
        DownStep(elems, lessFunc, i0, i, j, n);
      }
      SwappedBelow(elems, i, j, n);
      Swap(i, j);
    }

    /** container/heap's Push: append, then move the new last slot up. */
    method HeapPush(e: Elem<T>)
      requires Valid() && keyFunc(e.item) !in lookup && e.sequence <= counter
      modifies this
      ensures Valid()
      ensures multiset(elems) == old(multiset(elems)) + multiset{e}
      ensures lookup.Keys == old(lookup.Keys) + {keyFunc(e.item)} && counter == old(counter)
    {
      AppendUpInv(elems, e, lessFunc);
      Push(e);
      Up(|elems| - 1, |elems|);
    }

    /** container/heap's Pop: exchange the root with the last slot, move the
        new root down over the others, then drop the last slot. */
    method HeapPop() returns (e: Elem<T>)
      requires Valid() && 0 < |elems|
      modifies this
      ensures Valid()
      ensures e == old(elems)[0]
      ensures multiset(elems) == old(multiset(elems)) - multiset{e}
      ensures lookup.Keys == old(lookup.Keys) - {keyFunc(e.item)} && counter == old(counter)
    {
      var n := |elems| - 1;
      ghost var root := elems[0];
      assert DownInv(Swapped(elems, 0, n), lessFunc, 0, 0, n) by {
        ReplaceAt(elems, Swapped(elems, 0, n), lessFunc, 0, n);
      }
      Swap(0, n);
      assert elems[n..] == [root];
      var _ := Down(0, n);
      e := Pop();
    }

    /** The step container/heap's Fix and Remove share: slot i may be out of
        place among the first n slots; move it down, or up if it did not move
        down. */
    method Settle(i: nat, n: nat)
      requires Indexed() && i < n <= |elems| && DownInv(elems, lessFunc, i, i, n)
      modifies this
      ensures Indexed() && |elems| == old(|elems|) && HeapOrderedUpTo(elems, lessFunc, n)
      ensures elems[n..] == old(elems[n..]) && multiset(elems) == old(multiset(elems))
      ensures lookup.Keys == old(lookup.Keys) && counter == old(counter)
    {
      var moved := Down(i, n);
      if !moved {
        Up(i, n);
      }
    }

    /** container/heap's Fix: re-establish heap order after slot i changed. */
    method HeapFix(i: nat)
      requires Indexed() && i < |elems| && DownInv(elems, lessFunc, i, i, |elems|)
      modifies this
      ensures Valid()
      ensures multiset(elems) == old(multiset(elems))
      ensures lookup.Keys == old(lookup.Keys) && counter == old(counter)
    {
      Settle(i, |elems|);
    }

    /** The first half of container/heap's Remove: exchange slot i with the
        last slot and restore heap order over the others, so that the last
        slot holds the old slot i. */
    method MoveToEnd(i: nat)
      requires Valid() && i < |elems|
      modifies this
      ensures Indexed() && |elems| == old(|elems|) && elems[|elems| - 1] == old(elems)[i]
      ensures HeapOrderedUpTo(elems, lessFunc, |elems| - 1)
      ensures multiset(elems) == old(multiset(elems))
      ensures lookup.Keys == old(lookup.Keys) && counter == old(counter)
    {
      var n := |elems| - 1;
      if n != i {
        ghost var target := elems[i];
        assert DownInv(Swapped(elems, i, n), lessFunc, i, i, n) by {
          ReplaceAt(elems, Swapped(elems, i, n), lessFunc, i, n);
        }
        Swap(i, n);
        assert elems[n..] == [target];
        Settle(i, n);
        assert elems[n] == elems[n..][0];
      }
    }

    /** container/heap's Remove: move slot i to the end, then drop the last
        slot. */
    method HeapRemove(i: nat) returns (e: Elem<T>)
      requires Valid() && i < |elems|
      modifies this
      ensures Valid()
      ensures e == old(elems)[i]
      ensures multiset(elems) == old(multiset(elems)) - multiset{e}
      ensures lookup.Keys == old(lookup.Keys) - {keyFunc(e.item)} && counter == old(counter)
    {
      MoveToEnd(i);
      e := Pop();
    }

    /** Clear: empty slice, empty map, and a new counter. */
    method Clear()
      requires Valid()
      modifies this
      ensures Valid()
      ensures elems == [] && lookup == map[] && counter == 0
    {
      elems := [];
      lookup := map[];
      counter := 0;
    }

    /** Enqueue: the next sequence number, then a heap push. The key is not
        checked by the source; the model requires it to be new. */
    method Enqueue(item: T, prio: int)
      requires Valid() && keyFunc(item) !in lookup
      modifies this
      ensures Valid()
      ensures counter == old(counter) + 1
      ensures Contents() == old(Contents()) + multiset{Elem(item, prio, counter)}
      ensures forall x :: x in old(Contents()) ==> x.sequence < counter
      ensures lookup.Keys == old(lookup.Keys) + {keyFunc(item)}
      ensures Len() == old(Len()) + 1 && Contains(item)
    {
      counter := counter + 1;
      var elem := Elem(item, prio, counter);
      HeapPush(elem);
    }

    /** Dequeue: None when empty; otherwise the root, which is ranked first. */
    method Dequeue() returns (r: Option<T>)
      requires Valid()
      modifies this
      ensures Valid()
      ensures old(|elems|) == 0 ==> r == None && unchanged(this)
      ensures old(|elems|) > 0 ==>
        && r == Some(old(elems)[0].item)
        && IsFirst(old(elems)[0], old(Contents()), lessFunc)
        && Contents() == old(Contents()) - multiset{old(elems)[0]}
        && lookup.Keys == old(lookup.Keys) - {keyFunc(old(elems)[0].item)}
        && counter == old(counter)
    {
      if |elems| == 0 {
        return None;
      }
      RootIsFirst(elems, lessFunc);
      var elem := HeapPop();
      r := Some(elem.item);
    }

    /** Peek: None when empty; otherwise the item of a first-ranked element. */
    function Peek(): (r: Option<T>)
      reads this
      requires Valid()
      ensures r.None? <==> |elems| == 0
      ensures r.Some? ==> r.value == elems[0].item && IsFirst(elems[0], Contents(), lessFunc)
    {
      if |elems| == 0 then None
      else
        RootIsFirst(elems, lessFunc);
        Some(elems[0].item)
    }

    /** Update: an absent key changes nothing. A present key's slot is
        overwritten with the new item, the new priority and a fresh sequence
        number, then fixed. */
    method Update(item: T, newPrio: int) returns (ok: bool)
      requires Valid()
      modifies this
      ensures Valid()
      ensures ok == (keyFunc(item) in old(lookup))
      ensures !ok ==> unchanged(this)
      ensures ok ==>
        && counter == old(counter) + 1
        && Contents() == old(Contents()) - multiset{old(elems)[old(lookup)[keyFunc(item)]]}
                                         + multiset{Elem(item, newPrio, counter)}
        && lookup.Keys == old(lookup.Keys)
    {
      var key := keyFunc(item);
      if key !in lookup {
        return false;
      }
      var loc := lookup[key];
      counter := counter + 1;
      var elem := Elem(item, newPrio, counter);
      ghost var before := elems;
      KeysSameKey(elems, keyFunc, loc, elem);
      ReplaceAt(elems, elems[loc := elem], lessFunc, loc, |elems|);
      elems := elems[loc := elem];
      assert multiset(elems) == multiset(before) - multiset{before[loc]} + multiset{elem};
      HeapFix(loc);
      ok := true;
    }

    /** Delete: an absent key changes nothing; a present key's element is
        removed through heap Remove. */
    method Delete(item: T) returns (ok: bool)
      requires Valid()
      modifies this
      ensures Valid()
      ensures ok == (keyFunc(item) in old(lookup))
      ensures !ok ==> unchanged(this)
      ensures ok ==>
        && Contents() == old(Contents()) - multiset{old(elems)[old(lookup)[keyFunc(item)]]}
        && lookup.Keys == old(lookup.Keys) - {keyFunc(item)}
        && Len() == old(Len()) - 1 && !Contains(item)
        && counter == old(counter)
    {
      var key := keyFunc(item);
      if key !in lookup {
        return false;
      }
      var loc := lookup[key];
      var e := HeapRemove(loc);
      ok := true;
    }

    /** Len: the number of elements, which is also the number of keys. */
    function Len(): (n: int)
      reads this
      requires Valid()
      ensures n == |Contents()| == |lookup|
    {
      IndexesShape(Keys(elems, keyFunc), lookup);
      |elems|
    }

    /** Contains: whether some stored element has the item's key. */
    function Contains(item: T): (b: bool)
      reads this
      requires Valid()
      ensures b <==> exists i :: 0 <= i < |elems| && keyFunc(elems[i].item) == keyFunc(item)
    {
      assert forall i :: 0 <= i < |elems| ==> Keys(elems, keyFunc)[i] == keyFunc(elems[i].item);
      keyFunc(item) in lookup
    }
  }
}
