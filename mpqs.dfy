/**
 * mpqs: a priority queue of (item, priority) pairs without a key index.
 * Each element carries a sequence number from a per-queue counter, so that
 * the stable comparators can send equal priorities out in insertion order;
 * Clear restarts the counter. The Item, Priority and Sequence getters are the
 * fields of Elem.
 *
 * The Go package splits the state between PriorityQueue (the counter) and
 * heapImpl (the slice and the comparator); here one class holds all of it.
 * The sift loops of Go's container/heap are written out as Up, Down,
 * HeapPush and HeapPop.
 */
module Mpqs {
  import opened HeapOrder
  import opened Elems
  import opened Wrappers

  class PriorityQueue<T(!new)> {
    const lessFunc: (Elem<T>, Elem<T>) -> bool
    var elems: seq<Elem<T>>
    /** The last sequence number the counter handed out (0 before the first). */
    var counter: int

    /** What holds between the steps of a heap operation: the comparator is
        usable and every sequence number was issued by the counter. */
    ghost predicate Counted()
      reads this
    {
      && StrictWeakOrder(lessFunc)
      && (forall i :: 0 <= i < |elems| ==> elems[i].sequence <= counter)
    }

    /** What holds after every public call: in addition, heap order. */
    ghost predicate Valid()
      reads this
    {
      Counted() && HeapOrdered(elems, lessFunc)
    }

    /** The elements held, without their arrangement in the slice. */
    ghost function Contents(): multiset<Elem<T>>
      reads this
    {
      multiset(elems)
    }

    constructor (lessFunc: (Elem<T>, Elem<T>) -> bool)
      requires StrictWeakOrder(lessFunc)
      ensures Valid()
      ensures this.lessFunc == lessFunc && elems == [] && counter == 0
    {
      this.lessFunc := lessFunc;
      elems := [];
      counter := 0;
    }

    /** heapImpl.Less: slot i is ranked strictly ahead of slot j. No slot
        is ahead of itself, and in a valid queue no slot is ahead of the
        root, which is why Peek reads slot 0. */
    function Less(i: nat, j: nat): (r: bool)
      reads this
      requires i < |elems| && j < |elems|
      ensures StrictWeakOrder(lessFunc) && i == j ==> !r
      ensures Valid() && j == 0 ==> !r
    {
      assert Valid() && j == 0 ==> !lessFunc(elems[i], elems[0]) by {
        if Valid() && j == 0 {
          NotAheadOfRoot(elems, lessFunc, i);
        }
      }
      lessFunc(elems[i], elems[j])
    }

    /** heapImpl.Swap: exchange two slots. */
    method Swap(i: nat, j: nat)
      requires Counted() && i < |elems| && j < |elems|
      modifies this
      ensures Counted()
      ensures elems == Swapped(old(elems), i, j) && counter == old(counter)
      ensures multiset(elems) == old(multiset(elems))
    {
      SwappedMultiset(elems, i, j);
      elems := elems[i := elems[j]][j := elems[i]];
    }

    /** heapImpl.Push: append. */
    method Push(e: Elem<T>)
      requires Counted() && e.sequence <= counter
      modifies this
      ensures Counted()
      ensures elems == old(elems) + [e] && counter == old(counter)
    {
      elems := elems + [e];
    }

    /** heapImpl.Pop: drop the last slot and return it. */
    method Pop() returns (e: Elem<T>)
      requires Counted() && 0 < |elems|
      modifies this
      ensures Counted()
      ensures e == old(elems)[old(|elems|) - 1] && elems == old(elems)[..old(|elems|) - 1]
      ensures multiset(elems) == old(multiset(elems)) - multiset{e}
      ensures HeapOrderedUpTo(old(elems), lessFunc, |elems|) ==> HeapOrdered(elems, lessFunc)
      ensures counter == old(counter)
    {
      var n := |elems| - 1;
      e := elems[n];
      RemoveLast(elems, n);
      if HeapOrderedUpTo(elems, lessFunc, n) {
        HeapOrderedPrefix(elems, lessFunc, n);
      }
      elems := elems[..n];
    }

    /** container/heap's up: move slot j0 toward the root while it outranks
        its parent. Only slots below n take part. */
    method Up(j0: nat, ghost n: nat)
      requires Counted() && j0 < n <= |elems| && UpInv(elems, lessFunc, j0, n)
      modifies this
      ensures Counted() && |elems| == old(|elems|) && HeapOrderedUpTo(elems, lessFunc, n)
      ensures elems[n..] == old(elems[n..]) && multiset(elems) == old(multiset(elems))
      ensures counter == old(counter)
    {
      var j: nat := j0;
      while true
        invariant Counted() && j < n <= |elems| == old(|elems|)
        invariant UpInv(elems, lessFunc, j, n)
        invariant elems[n..] == old(elems[n..]) && multiset(elems) == old(multiset(elems))
        invariant counter == old(counter)
        decreases j
      {
        var i := Parent(j);
        if i == j || !Less(j, i) {
          UpDone(elems, lessFunc, j, n);
          break;
        }
        UpStep(elems, lessFunc, j, n);
        SwappedBelow(elems, i, j, n);
        Swap(i, j);
        j := i;
      }
    }

    /** container/heap's down: move slot i0 away from the root while its
        preferred child outranks it. Only slots below n take part. Reports
        whether the element moved. */
    method Down(i0: nat, n: nat) returns (moved: bool)
      requires Counted() && i0 <= n <= |elems| && DownInv(elems, lessFunc, i0, i0, n)
      modifies this
      ensures Counted() && |elems| == old(|elems|)
      ensures moved || i0 == 0 ==> HeapOrderedUpTo(elems, lessFunc, n)
      ensures !moved && i0 < n ==> UpInv(elems, lessFunc, i0, n)
      ensures elems[n..] == old(elems[n..]) && multiset(elems) == old(multiset(elems))
      ensures counter == old(counter)
    {
      var i: nat := i0;
      while true
        invariant Counted() && i0 <= i <= n <= |elems| == old(|elems|)
        invariant i == n ==> i == i0
        invariant DownInv(elems, lessFunc, i0, i, n)
        invariant elems[n..] == old(elems[n..]) && multiset(elems) == old(multiset(elems))
        invariant counter == old(counter)
        decreases n - i
      {
        var j1 := 2 * i + 1;
        if j1 >= n {
          Leaf(i, n);
          break;
        }
        var j := j1;
        var j2 := j1 + 1;
        if j2 < n && Less(j2, j1) {
          j := j2;
        }
        if !Less(j, i) {
          NoChildAheadOf(i, j, n);
          break;
        }
        SwapDown(i0, i, j, n);
        i := j;
      }
      DownDone(elems, lessFunc, i0, i, n);
      moved := i > i0;
    }

    /** down() stops at slot i when its preferred child j does not outrank
        it: then no child of i does. */
    lemma NoChildAheadOf(i: nat, j: nat, n: nat)
      requires StrictWeakOrder(lessFunc) && n <= |elems| && 2 * i + 1 < n
      requires j == (if 2 * i + 2 < n && Less(2 * i + 2, 2 * i + 1) then 2 * i + 2 else 2 * i + 1)
      requires !Less(j, i)
      ensures forall c :: 0 < c < n && Parent(c) == i ==> !lessFunc(elems[c], elems[i])
    {
      PreferredChild(elems, lessFunc, i, j, n);
      NoChildAhead(elems, lessFunc, i, j, n);
    }

    /** One exchange of down(): slot i and its preferred child j, which
        outranks it, change places. */
    method SwapDown(i0: nat, i: nat, j: nat, n: nat)
      requires Counted() && i0 <= i && n <= |elems| && 2 * i + 1 < n
      requires j == (if 2 * i + 2 < n && Less(2 * i + 2, 2 * i + 1) then 2 * i + 2 else 2 * i + 1)
      requires Less(j, i) && DownInv(elems, lessFunc, i0, i, n)
      modifies this
      ensures Counted() && |elems| == old(|elems|)
      ensures DownInv(elems, lessFunc, i0, j, n)
      ensures elems[n..] == old(elems[n..]) && multiset(elems) == old(multiset(elems))
      ensures counter == old(counter)
    {
      assert DownInv(Swapped(elems, i, j), lessFunc, i0, j, n) by {
        PreferredChild(elems, lessFunc, i, j, n);
        DownStep(elems, lessFunc, i0, i, j, n);
      }
      SwappedBelow(elems, i, j, n);
      Swap(i, j);
    }

    /** container/heap's Push: append, then move the new last slot up. */
    method HeapPush(e: Elem<T>)
      requires Valid() && e.sequence <= counter
      modifies this
      ensures Valid()
      ensures multiset(elems) == old(multiset(elems)) + multiset{e} && counter == old(counter)
    {
      AppendUpInv(elems, e, lessFunc);
      Push(e);
      Up(|elems| - 1, |elems|);
    }

    /** container/heap's Pop: exchange the root with the last slot, move the
        new root down over the others, then drop the last slot. */
    method HeapPop() returns (e: Elem<T>)
      requires Valid() && 0 < |elems|
      modifies this
      ensures Valid()
      ensures e == old(elems)[0]
      ensures multiset(elems) == old(multiset(elems)) - multiset{e} && counter == old(counter)
    {
      var n := |elems| - 1;
      ghost var root := elems[0];
      assert DownInv(Swapped(elems, 0, n), lessFunc, 0, 0, n) by {
        ReplaceAt(elems, Swapped(elems, 0, n), lessFunc, 0, n);
      }
      Swap(0, n);
      assert elems[n..] == [root];
      var _ := Down(0, n);
      e := Pop();
    }

    /** Clear: empty slice and a new counter. */
    method Clear()
      requires Valid()
      modifies this
      ensures Valid()
      ensures elems == [] && counter == 0
    {
      elems := [];
      counter := 0;
    }

    /** Enqueue: the next sequence number, then a heap push. Successive calls
        number their elements 1, 2, 3, ... from the last Clear. */
    method Enqueue(item: T, prio: int)
      requires Valid()
      modifies this
      ensures Valid()
      ensures counter == old(counter) + 1
      ensures Contents() == old(Contents()) + multiset{Elem(item, prio, counter)}
      ensures forall x :: x in old(Contents()) ==> x.sequence < counter
      ensures Len() == old(Len()) + 1
    {
      counter := counter + 1;
      var elem := Elem(item, prio, counter);
      HeapPush(elem);
    }

    /** Dequeue: None when empty; otherwise the root, which is ranked first. */
    method Dequeue() returns (r: Option<T>)
      requires Valid()
      modifies this
      ensures Valid()
      ensures old(|elems|) == 0 ==> r == None && unchanged(this)
      ensures old(|elems|) > 0 ==>
        && r == Some(old(elems)[0].item)
        && IsFirst(old(elems)[0], old(Contents()), lessFunc)
        && Contents() == old(Contents()) - multiset{old(elems)[0]}
        && counter == old(counter)
    {
      if |elems| == 0 {
        return None;
      }
      RootIsFirst(elems, lessFunc);
      var elem := HeapPop();
      r := Some(elem.item);
    }

    /** Peek: None when empty; otherwise the item of a first-ranked element. */
    function Peek(): (r: Option<T>)
      reads this
      requires Valid()
      ensures r.None? <==> |elems| == 0
      ensures r.Some? ==> r.value == elems[0].item && IsFirst(elems[0], Contents(), lessFunc)
    {
      if |elems| == 0 then None
      else
        RootIsFirst(elems, lessFunc);
        Some(elems[0].item)
    }

    /** Len: the number of elements. */
    function Len(): (n: int)
      reads this
      ensures n == |Contents()|
    {
      |elems|
    }
  }

  /** The queue the examples start from: "a", "b" and "c" enqueued in that
      order with the given priorities, so with sequence numbers 1, 2, 3. */
  method ThreeItems(lessFunc: (Elem<string>, Elem<string>) -> bool, pa: int, pb: int, pc: int)
    returns (pq: PriorityQueue<string>)
    requires StrictWeakOrder(lessFunc)
    ensures fresh(pq) && pq.Valid() && pq.lessFunc == lessFunc
    ensures pq.Contents() == multiset{Elem("a", pa, 1), Elem("b", pb, 2), Elem("c", pc, 3)}
  {
    pq := new PriorityQueue(lessFunc);
    pq.Enqueue("a", pa);
    pq.Enqueue("b", pb);
    pq.Enqueue("c", pc);
  }

  /** One step of an example: when x is ranked strictly ahead of every other
      element held, Dequeue returns x's item and leaves the rest. */
  method DequeueExpecting<T(==, !new)>(pq: PriorityQueue<T>, x: Elem<T>, rest: multiset<Elem<T>>) returns (r: Option<T>)
    requires pq.Valid() && pq.Contents() == rest + multiset{x}
    requires forall y :: y in rest && y != x ==> pq.lessFunc(x, y)
    modifies pq
    ensures pq.Valid() && pq.Contents() == rest
    ensures r == Some(x.item)
  {
    ghost var m := pq.Contents();
    ghost var root := pq.elems[0];
    r := pq.Dequeue();
    FirstIsUnique(root, m, pq.lessFunc, x);
  }

  /** The example of the stable comparator: three items of equal priority
      leave in the order they were enqueued. */
  method StableMinFirstScenario() returns (first: Option<string>, second: Option<string>, third: Option<string>)
    ensures first == Some("a") && second == Some("b") && third == Some("c")
  {
    var ea, eb, ec := Elem("a", 1, 1), Elem("b", 1, 2), Elem("c", 1, 3);
    StockComparatorsAreStrictWeakOrders<string>();
    var pq := ThreeItems(StableMinFirst, 1, 1, 1);
    first := DequeueExpecting(pq, ea, multiset{eb, ec});
    second := DequeueExpecting(pq, eb, multiset{ec});
    third := DequeueExpecting(pq, ec, multiset{});
  }

  /** The example of the stable max-first comparator: three items of equal
      priority still leave in the order they were enqueued. */
  method StableMaxFirstScenario() returns (first: Option<string>, second: Option<string>, third: Option<string>)
    ensures first == Some("a") && second == Some("b") && third == Some("c")
  {
    var ea, eb, ec := Elem("a", 1, 1), Elem("b", 1, 2), Elem("c", 1, 3);
    StockComparatorsAreStrictWeakOrders<string>();
    var pq := ThreeItems(StableMaxFirst, 1, 1, 1);
    first := DequeueExpecting(pq, ea, multiset{eb, ec});
    second := DequeueExpecting(pq, eb, multiset{ec});
    third := DequeueExpecting(pq, ec, multiset{});
  }

  /** The example of the plain comparator: priorities 3, 1, 2 leave
      lowest first. */
  method MinFirstScenario() returns (first: Option<string>, second: Option<string>, third: Option<string>)
    ensures first == Some("b") && second == Some("c") && third == Some("a")
  {
    var ea, eb, ec := Elem("a", 3, 1), Elem("b", 1, 2), Elem("c", 2, 3);
    StockComparatorsAreStrictWeakOrders<string>();
    var pq := ThreeItems(MinFirst, 3, 1, 2);
    first := DequeueExpecting(pq, eb, multiset{ea, ec});
    second := DequeueExpecting(pq, ec, multiset{ea});
    third := DequeueExpecting(pq, ea, multiset{});
  }

  /** The example of a caller-supplied comparator that prefers the latest
      insertion among equal priorities: a (1), b (2), c (2) leave a, c, b. */
  method LatestMinFirstScenario() returns (first: Option<string>, second: Option<string>, third: Option<string>)
    ensures first == Some("a") && second == Some("c") && third == Some("b")
  {
    var ea, eb, ec := Elem("a", 1, 1), Elem("b", 2, 2), Elem("c", 2, 3);
    LatestMinFirstIsLifo(ea, multiset{});
    var pq := ThreeItems(LatestMinFirst, 1, 2, 2);
    first := DequeueExpecting(pq, ea, multiset{eb, ec});
    second := DequeueExpecting(pq, ec, multiset{eb});
    third := DequeueExpecting(pq, eb, multiset{});
  }

  /** The example of MaxFirst: of "low" (1) and "high" (3), "high" leaves
      first. */
  method MaxFirstScenario() returns (first: Option<string>)
    ensures first == Some("high")
  {
    StockComparatorsAreStrictWeakOrders<string>();
    var pq := new PriorityQueue(MaxFirst);
    pq.Enqueue("low", 1);
    pq.Enqueue("high", 3);
    first := DequeueExpecting(pq, Elem("high", 3, 2), multiset{Elem("low", 1, 1)});
  }
}
