/**
 * pqs: a priority queue of bare ordered values, ranked by a comparator
 * supplied at construction. The values are integers here; Go's cmp.Ordered
 * also admits floating-point numbers and strings, which are not modelled.
 * The sift loops of Go's container/heap are written out as Up, Down,
 * HeapPush and HeapPop.
 */
module Pqs {
  import opened HeapOrder
  import opened Wrappers

  /** x is ranked ahead of y when it is smaller: no value is ahead of
      itself, and of two different values one is ahead of the other. */
  function MinFirst(x: int, y: int): (r: bool)
    ensures r ==> x != y
    ensures x != y && !r ==> y < x
  {
    x < y
  }

  /** x is ranked ahead of y when it is larger: MinFirst with its
      arguments exchanged. */
  function MaxFirst(x: int, y: int): (r: bool)
    ensures r == MinFirst(y, x)
  {
    x > y
  }

  /** Both stock comparators are strict weak orders, and a first-ranked value
      is the minimum (MinFirst) or the maximum (MaxFirst) of what is held. */
  lemma StockComparators(e: int, m: multiset<int>)
    ensures StrictWeakOrder(MinFirst) && StrictWeakOrder(MaxFirst)
    ensures IsFirst(e, m, MinFirst) <==> e in m && forall x :: x in m ==> e <= x
    ensures IsFirst(e, m, MaxFirst) <==> e in m && forall x :: x in m ==> x <= e
  {
  }

  class PriorityQueue {
    const lessFunc: (int, int) -> bool
    var items: seq<int>

    /** What holds after every public call: a usable comparator and heap order. */
    ghost predicate Valid()
      reads this
    {
      StrictWeakOrder(lessFunc) && HeapOrdered(items, lessFunc)
    }

    /** The values held, without their arrangement in the slice. */
    ghost function Contents(): multiset<int>
      reads this
    {
      multiset(items)
    }

    /** New: an empty queue ranked by lessFunc. */
    constructor (lessFunc: (int, int) -> bool)
      requires StrictWeakOrder(lessFunc)
      ensures Valid()
      ensures this.lessFunc == lessFunc && items == []
    {
      this.lessFunc := lessFunc;
      items := [];
    }

    /** heapImpl.Less: slot i is ranked strictly ahead of slot j. No slot
        is ahead of itself, and in a valid queue no slot is ahead of the
        root, which is why Peek reads slot 0. */
    function Less(i: nat, j: nat): (r: bool)
      reads this
      requires i < |items| && j < |items|
      ensures StrictWeakOrder(lessFunc) && i == j ==> !r
      ensures Valid() && j == 0 ==> !r
    {
      assert Valid() && j == 0 ==> !lessFunc(items[i], items[0]) by {
        if Valid() && j == 0 {
          NotAheadOfRoot(items, lessFunc, i);
        }
      }
      lessFunc(items[i], items[j])
    }

    /** heapImpl.Swap: exchange two slots. */
    method Swap(i: nat, j: nat)
      requires StrictWeakOrder(lessFunc) && i < |items| && j < |items|
      modifies this
      ensures items == Swapped(old(items), i, j)
      ensures multiset(items) == old(multiset(items))
    {
      SwappedMultiset(items, i, j);
      items := items[i := items[j]][j := items[i]];
    }

    /** heapImpl.Push: append. */
    method Push(e: int)
      requires StrictWeakOrder(lessFunc)
      modifies this
      ensures items == old(items) + [e]
    {
      items := items + [e];
    }

    /** heapImpl.Pop: drop the last slot and return it. */
    method Pop() returns (e: int)
      requires StrictWeakOrder(lessFunc) && 0 < |items|
      modifies this
      ensures e == old(items)[old(|items|) - 1] && items == old(items)[..old(|items|) - 1]
      ensures multiset(items) == old(multiset(items)) - multiset{e}
      ensures HeapOrderedUpTo(old(items), lessFunc, |items|) ==> HeapOrdered(items, lessFunc)
    {
      var n := |items| - 1;
      e := items[n];
      RemoveLast(items, n);
      if HeapOrderedUpTo(items, lessFunc, n) {
        HeapOrderedPrefix(items, lessFunc, n);
      }
      items := items[..n];
    }

    /** container/heap's up: move slot j0 toward the root while it outranks
        its parent. Only slots below n take part. */
    method Up(j0: nat, ghost n: nat)
      requires StrictWeakOrder(lessFunc) && j0 < n <= |items| && UpInv(items, lessFunc, j0, n)
      modifies this
      ensures StrictWeakOrder(lessFunc) && |items| == old(|items|) && HeapOrderedUpTo(items, lessFunc, n)
      ensures items[n..] == old(items[n..]) && multiset(items) == old(multiset(items))
    {
      var j: nat := j0;
      while true
        invariant StrictWeakOrder(lessFunc) && j < n <= |items| == old(|items|)
        invariant UpInv(items, lessFunc, j, n)
        invariant items[n..] == old(items[n..]) && multiset(items) == old(multiset(items))
        decreases j
      {
        var i := Parent(j);
        if i == j || !Less(j, i) {
          UpDone(items, lessFunc, j, n);
          break;
        }
        UpStep(items, lessFunc, j, n);
        SwappedBelow(items, i, j, n);
        Swap(i, j);
        j := i;
      }
    }

    /** container/heap's down: move slot i0 away from the root while its
        preferred child outranks it. Only slots below n take part. Reports
        whether the element moved. */
    method Down(i0: nat, n: nat) returns (moved: bool)
      requires StrictWeakOrder(lessFunc) && i0 <= n <= |items| && DownInv(items, lessFunc, i0, i0, n)
      modifies this
      ensures StrictWeakOrder(lessFunc) && |items| == old(|items|)
      ensures moved || i0 == 0 ==> HeapOrderedUpTo(items, lessFunc, n)
      ensures !moved && i0 < n ==> UpInv(items, lessFunc, i0, n)
      ensures items[n..] == old(items[n..]) && multiset(items) == old(multiset(items))
    {
      var i: nat := i0;
      while true
        invariant StrictWeakOrder(lessFunc) && i0 <= i <= n <= |items| == old(|items|)
        invariant i == n ==> i == i0
        invariant DownInv(items, lessFunc, i0, i, n)
        invariant items[n..] == old(items[n..]) && multiset(items) == old(multiset(items))
        decreases n - i
      {
        var j1 := 2 * i + 1;
        if j1 >= n {
          Leaf(i, n);
          break;
        }
        var j := j1;
        var j2 := j1 + 1;
        if j2 < n && Less(j2, j1) {
          j := j2;
        }
        if !Less(j, i) {
          NoChildAheadOf(i, j, n);
          break;
        }
        SwapDown(i0, i, j, n);
        i := j;
      }
      DownDone(items, lessFunc, i0, i, n);
      moved := i > i0;
    }

    /** down() stops at slot i when its preferred child j does not outrank
        it: then no child of i does. */
    lemma NoChildAheadOf(i: nat, j: nat, n: nat)
      requires StrictWeakOrder(lessFunc) && n <= |items| && 2 * i + 1 < n
      requires j == (if 2 * i + 2 < n && Less(2 * i + 2, 2 * i + 1) then 2 * i + 2 else 2 * i + 1)
      requires !Less(j, i)
      ensures forall c :: 0 < c < n && Parent(c) == i ==> !lessFunc(items[c], items[i])
    {
      PreferredChild(items, lessFunc, i, j, n);
      NoChildAhead(items, lessFunc, i, j, n);
    }

    /** One exchange of down(): slot i and its preferred child j, which
        outranks it, change places. */
    method SwapDown(i0: nat, i: nat, j: nat, n: nat)
      requires StrictWeakOrder(lessFunc) && i0 <= i && n <= |items| && 2 * i + 1 < n
      requires j == (if 2 * i + 2 < n && Less(2 * i + 2, 2 * i + 1) then 2 * i + 2 else 2 * i + 1)
      requires Less(j, i) && DownInv(items, lessFunc, i0, i, n)
      modifies this
      ensures StrictWeakOrder(lessFunc) && |items| == old(|items|)
      ensures DownInv(items, lessFunc, i0, j, n)
      ensures items[n..] == old(items[n..]) && multiset(items) == old(multiset(items))
    {
      assert DownInv(Swapped(items, i, j), lessFunc, i0, j, n) by {
        PreferredChild(items, lessFunc, i, j, n);
        DownStep(items, lessFunc, i0, i, j, n);
      }
      SwappedBelow(items, i, j, n);
      Swap(i, j);
    }

    /** container/heap's Push: append, then move the new last slot up. */
    method HeapPush(e: int)
      requires Valid()
      modifies this
      ensures Valid()
      ensures multiset(items) == old(multiset(items)) + multiset{e}
    {
      AppendUpInv(items, e, lessFunc);
      Push(e);
      Up(|items| - 1, |items|);
    }

    /** container/heap's Pop: exchange the root with the last slot, move the
        new root down over the others, then drop the last slot. */
    method HeapPop() returns (e: int)
      requires Valid() && 0 < |items|
      modifies this
      ensures Valid()
      ensures e == old(items)[0]
      ensures multiset(items) == old(multiset(items)) - multiset{e}
    {
      var n := |items| - 1;
      ghost var root := items[0];
      assert DownInv(Swapped(items, 0, n), lessFunc, 0, 0, n) by {
        ReplaceAt(items, Swapped(items, 0, n), lessFunc, 0, n);
      }
      Swap(0, n);
      assert items[n..] == [root];
      var _ := Down(0, n);
      e := Pop();
    }

    /** Clear: an empty slice. */
    method Clear()
      requires Valid()
      modifies this
      ensures Valid() && items == []
    {
      items := [];
    }

    /** Enqueue: a heap push. */
    method Enqueue(item: int)
      requires Valid()
      modifies this
      ensures Valid()
      ensures Contents() == old(Contents()) + multiset{item}
      ensures Len() == old(Len()) + 1
    {
      HeapPush(item);
    }

    /** Dequeue: None when empty; otherwise the root, which is ranked first. */
    method Dequeue() returns (r: Option<int>)
      requires Valid()
      modifies this
      ensures Valid()
      ensures old(|items|) == 0 ==> r == None && unchanged(this)
      ensures old(|items|) > 0 ==>
        && r == Some(old(items)[0])
        && IsFirst(old(items)[0], old(Contents()), lessFunc)
        && Contents() == old(Contents()) - multiset{old(items)[0]}
    {
      if |items| == 0 {
        return None;
      }
      RootIsFirst(items, lessFunc);
      var item := HeapPop();
      r := Some(item);
    }

    /** Peek: None when empty; otherwise a first-ranked value. */
    function Peek(): (r: Option<int>)
      reads this
      requires Valid()
      ensures r.None? <==> |items| == 0
      ensures r.Some? ==> r.value == items[0] && IsFirst(r.value, Contents(), lessFunc)
    {
      if |items| == 0 then None
      else
        RootIsFirst(items, lessFunc);
        Some(items[0])
    }

    /** Len: the number of values. */
    function Len(): (n: int)
      reads this
      ensures n == |Contents()|
    {
      |items|
    }
  }

  /** The queue of the dequeue example: 3, 1 and 2 enqueued under MinFirst. */
  method ThreeValues() returns (pq: PriorityQueue)
    ensures fresh(pq) && pq.Valid() && pq.lessFunc == MinFirst
    ensures pq.Contents() == multiset{3, 1, 2}
  {
    StockComparators(0, multiset{});
    pq := new PriorityQueue(MinFirst);
    pq.Enqueue(3);
    pq.Enqueue(1);
    pq.Enqueue(2);
  }

  /** One step of the example: when x is ranked strictly ahead of every
      other value held, Dequeue returns x and leaves the rest. */
  method DequeueExpecting(pq: PriorityQueue, x: int, rest: multiset<int>) returns (r: Option<int>)
    requires pq.Valid() && pq.Contents() == rest + multiset{x}
    requires forall y :: y in rest && y != x ==> pq.lessFunc(x, y)
    modifies pq
    ensures pq.Valid() && pq.Contents() == rest
    ensures r == Some(x)
  {
    ghost var m := pq.Contents();
    ghost var root := pq.items[0];
    r := pq.Dequeue();
    FirstIsUnique(root, m, pq.lessFunc, x);
  }

  /** The dequeue example: 3, 1, 2 under MinFirst come out 1, 2, 3. */
  method MinFirstScenario() returns (first: Option<int>, second: Option<int>, third: Option<int>)
    ensures first == Some(1) && second == Some(2) && third == Some(3)
  {
    var pq := ThreeValues();
    first := DequeueExpecting(pq, 1, multiset{3, 2});
    second := DequeueExpecting(pq, 2, multiset{3});
    third := DequeueExpecting(pq, 3, multiset{});
  }
}
