/**
 * priorityqueues: a max-priority queue whose priorities are computed from the
 * values by a function fixed at construction. Each entry records its value,
 * its priority and its own slot; the adapter's Less ranks the larger priority
 * first. Besides the queue operations there are FromSeq (build from a
 * sequence), Clone (an independent copy) and Values (hand the values, in slot
 * order, to a callback until it asks to stop).
 *
 * Priorities are integers here. The sift loops of Go's container/heap are
 * written out as Up, Down, HeapPush and HeapPop.
 */
module PriorityQueues {
  import opened HeapOrder
  import opened Projection
  import opened Wrappers

  datatype Entry<T> = Entry(value: T, priority: int, index: int)

  function ValueOf<T>(e: Entry<T>): T {
    e.value
  }

  function PriorityOf<T>(e: Entry<T>): int {
    e.priority
  }

  /** The adapter's Less on priorities: the larger one is ranked first. */
  predicate Greater(x: int, y: int) {
    x > y
  }

  /** Greater is a strict weak order, and a first-ranked priority is the
      largest one held. */
  lemma GreaterFirst(p: int, m: multiset<int>)
    ensures StrictWeakOrder(Greater)
    ensures IsFirst(p, m, Greater) <==> p in m && forall q :: q in m ==> q <= p
  {
  }

  /** adapter.Swap on the slice: the two entries change places and each
      records its new slot. */
  function Exchanged<T>(es: seq<Entry<T>>, i: nat, j: nat): (r: seq<Entry<T>>)
    requires i < |es| && j < |es|
    ensures |r| == |es| && r[j] == es[i].(index := j)
    ensures i != j ==> r[i] == es[j].(index := i)
    ensures forall k :: 0 <= k < |es| && k != i && k != j ==> r[k] == es[k]
  {
    es[i := es[j].(index := i)][j := es[i].(index := j)]
  }

  /** The views that ignore the slot see an exchange as a plain swap. */
  lemma ExchangedViews<T>(es: seq<Entry<T>>, i: nat, j: nat)
    requires i < |es| && j < |es|
    ensures Project(Exchanged(es, i, j), ValueOf) == Swapped(Project(es, ValueOf), i, j)
    ensures Project(Exchanged(es, i, j), PriorityOf) == Swapped(Project(es, PriorityOf), i, j)
  {
    ProjectAgree(Exchanged(es, i, j), Swapped(es, i, j), ValueOf);
    ProjectAgree(Exchanged(es, i, j), Swapped(es, i, j), PriorityOf);
    ProjectSwapped(es, ValueOf, i, j);
    ProjectSwapped(es, PriorityOf, i, j);
  }

  lemma ExchangedBelow<T>(es: seq<Entry<T>>, i: nat, j: nat, n: nat)
    requires i < n && j < n && n <= |es|
    ensures Exchanged(es, i, j)[n..] == es[n..]
  {
  }

  /** What Values hands to the callback: every value up to and including the
      first one for which it answers false, or all of them. */
  function Yielded<T>(vs: seq<T>, keepGoing: T -> bool): seq<T>
  {
    if vs == [] then []
    else if keepGoing(vs[0]) then [vs[0]] + Yielded(vs[1..], keepGoing)
    else [vs[0]]
  }

  /** Yielded is a prefix of the values; the callback answered true for every
      value before the last one handed over, and false for that last one
      unless all the values were handed over. */
  lemma {:induction false} YieldedIsPrefix<T>(vs: seq<T>, keepGoing: T -> bool)
    ensures |Yielded(vs, keepGoing)| <= |vs| && Yielded(vs, keepGoing) == vs[..|Yielded(vs, keepGoing)|]
    ensures forall i :: 0 <= i < |Yielded(vs, keepGoing)| - 1 ==> keepGoing(vs[i])
    ensures |Yielded(vs, keepGoing)| < |vs| ==> 0 < |Yielded(vs, keepGoing)| && !keepGoing(vs[|Yielded(vs, keepGoing)| - 1])
    ensures (forall v :: v in vs ==> keepGoing(v)) ==> Yielded(vs, keepGoing) == vs
  {
    if vs != [] && keepGoing(vs[0]) {
      YieldedIsPrefix(vs[1..], keepGoing);
      assert vs == [vs[0]] + vs[1..];
    }
  }

  class PriorityQueue<T(!new)> {
    const priorityFunc: T -> int
    var items: seq<Entry<T>>

    /** What holds between the steps of a heap operation: every entry records
        its own slot and the priority of its value. */
    ghost predicate Indexed()
      reads this
    {
      forall i :: 0 <= i < |items| ==>
        items[i].index == i && items[i].priority == priorityFunc(items[i].value)
    }

    /** What holds after every public call: in addition, heap order, the
        largest priority at the root. */
    ghost predicate Valid()
      reads this
    {
      Indexed() && HeapOrdered(Project(items, PriorityOf), Greater)
    }

    /** The values held, without their arrangement in the slice. */
    ghost function Contents(): multiset<T>
      reads this
    {
      multiset(Project(items, ValueOf))
    }

    /** New: an empty queue with the given priority function. */
    constructor (priorityFunc: T -> int)
      ensures Valid()
      ensures this.priorityFunc == priorityFunc && items == []
    {
      this.priorityFunc := priorityFunc;
      items := [];
    }

    /** adapter.Less: slot i has the strictly larger cached priority, so it
        comes out first. No slot is ahead of itself, and in a valid queue no
        slot is ahead of the root, which is why Peek reads slot 0. */
    function Less(i: nat, j: nat): (r: bool)
      reads this
      requires i < |items| && j < |items|
      ensures i == j ==> !r
      ensures Valid() && j == 0 ==> !r
    {
      assert Valid() && j == 0 ==> items[i].priority <= items[0].priority by {
        if Valid() && j == 0 {
          GreaterFirst(0, multiset{});
          NotAheadOfRoot(Project(items, PriorityOf), Greater, i);
        }
      }
      items[i].priority > items[j].priority
    }

    /** adapter.Swap: exchange two entries and record their new slots. */
    method Swap(i: nat, j: nat)
      requires Indexed() && i < |items| && j < |items|
      modifies this
      ensures Indexed()
      ensures items == Exchanged(old(items), i, j)
      ensures Project(items, PriorityOf) == Swapped(old(Project(items, PriorityOf)), i, j)
      ensures multiset(Project(items, ValueOf)) == old(multiset(Project(items, ValueOf)))
    {
      ghost var after := Exchanged(items, i, j);
      assert Project(after, PriorityOf) == Swapped(Project(items, PriorityOf), i, j) by {
        ExchangedViews(items, i, j);
      }
      assert multiset(Project(after, ValueOf)) == multiset(Project(items, ValueOf)) by {
        ExchangedViews(items, i, j);
        SwappedMultiset(Project(items, ValueOf), i, j);
      }
      var ei := items[i];
      var ej := items[j];
      items := items[i := ej][j := ei];
      items := items[i := items[i].(index := i)];
      items := items[j := items[j].(index := j)];
      assert items == after;
    }

    /** adapter.Push: the new entry records the next slot and is appended. */
    method Push(e: Entry<T>)
      requires Indexed() && e.priority == priorityFunc(e.value)
      modifies this
      ensures Indexed()
      ensures items == old(items) + [e.(index := old(|items|))]
    {
      var item := e.(index := |items|);
      items := items + [item];
    }

    /** adapter.Pop: drop the last entry and return it. */
    method Pop() returns (e: Entry<T>)
      requires Indexed() && 0 < |items|
      modifies this
      ensures Indexed()
      ensures e == old(items)[old(|items|) - 1] && items == old(items)[..old(|items|) - 1]
      ensures multiset(Project(items, ValueOf)) == old(multiset(Project(items, ValueOf))) - multiset{e.value}
      ensures HeapOrderedUpTo(old(Project(items, PriorityOf)), Greater, |items|) ==>
                HeapOrdered(Project(items, PriorityOf), Greater)
    {
      var n := |items| - 1;
      e := items[n];
      ghost var s := items;
      assert multiset(Project(s[..n], ValueOf)) == multiset(Project(s, ValueOf)) - multiset{e.value} by {
        ProjectPrefix(s, ValueOf, n);
        RemoveLast(Project(s, ValueOf), n);
      }
      assert HeapOrderedUpTo(Project(s, PriorityOf), Greater, n) ==> HeapOrdered(Project(s[..n], PriorityOf), Greater) by {
        ProjectPrefix(s, PriorityOf, n);
        if HeapOrderedUpTo(Project(s, PriorityOf), Greater, n) {
          HeapOrderedPrefix(Project(s, PriorityOf), Greater, n);
        }
      }
      items := items[..n];
    }

    /** container/heap's up: move slot j0 toward the root while its priority
        exceeds its parent's. Only slots below n take part. */
    method Up(j0: nat, ghost n: nat)
      requires Indexed() && j0 < n <= |items| && UpInv(Project(items, PriorityOf), Greater, j0, n)
      modifies this
      ensures Indexed() && |items| == old(|items|)
      ensures HeapOrderedUpTo(Project(items, PriorityOf), Greater, n)
      ensures items[n..] == old(items[n..])
      ensures multiset(Project(items, ValueOf)) == old(multiset(Project(items, ValueOf)))
    {
      GreaterFirst(0, multiset{});
      var j: nat := j0;
      while true
        invariant Indexed() && j < n <= |items| == old(|items|)
        invariant UpInv(Project(items, PriorityOf), Greater, j, n)
        invariant items[n..] == old(items[n..])
        invariant multiset(Project(items, ValueOf)) == old(multiset(Project(items, ValueOf)))
        decreases j
      {
        var i := Parent(j);
        if i == j || !Less(j, i) {
          UpDone(Project(items, PriorityOf), Greater, j, n);
          break;
        }
        assert UpInv(Swapped(Project(items, PriorityOf), i, j), Greater, i, n) by {
          UpStep(Project(items, PriorityOf), Greater, j, n);
        }
        ExchangedBelow(items, i, j, n);
        Swap(i, j);
        j := i;
      }
    }

    /** container/heap's down: move slot i0 away from the root while the
        larger of its children's priorities exceeds its own. Only slots below
        n take part. */
    method Down(i0: nat, n: nat) returns (moved: bool)
      requires Indexed() && i0 <= n <= |items| && DownInv(Project(items, PriorityOf), Greater, i0, i0, n)
      modifies this
      ensures Indexed() && |items| == old(|items|)
      ensures moved || i0 == 0 ==> HeapOrderedUpTo(Project(items, PriorityOf), Greater, n)
      ensures !moved && i0 < n ==> UpInv(Project(items, PriorityOf), Greater, i0, n)
      ensures items[n..] == old(items[n..])
      ensures multiset(Project(items, ValueOf)) == old(multiset(Project(items, ValueOf)))
    {
      GreaterFirst(0, multiset{});
      var i: nat := i0;
      while true
        invariant Indexed() && i0 <= i <= n <= |items| == old(|items|)
        invariant i == n ==> i == i0
        invariant DownInv(Project(items, PriorityOf), Greater, i0, i, n)
        invariant items[n..] == old(items[n..])
        invariant multiset(Project(items, ValueOf)) == old(multiset(Project(items, ValueOf)))
        decreases n - i
      {
        var j1 := 2 * i + 1;
        if j1 >= n {
          Leaf(i, n);
          break;
        }
        var j := j1;
        var j2 := j1 + 1;
        if j2 < n && Less(j2, j1) {
          j := j2;
        }
        if !Less(j, i) {
          NoChildAheadOf(i, j, n);
          break;
        }
        SwapDown(i0, i, j, n);
        i := j;
      }
      DownDone(Project(items, PriorityOf), Greater, i0, i, n);
      moved := i > i0;
    }

    /** down() stops at slot i when its preferred child j does not outrank
        it: then no child of i does. */
    lemma NoChildAheadOf(i: nat, j: nat, n: nat)
      requires n <= |items| && 2 * i + 1 < n
      requires j == (if 2 * i + 2 < n && Less(2 * i + 2, 2 * i + 1) then 2 * i + 2 else 2 * i + 1)
      requires !Less(j, i)
      ensures forall c :: 0 < c < n && Parent(c) == i ==>
                !Greater(Project(items, PriorityOf)[c], Project(items, PriorityOf)[i])
    {
      var prios := Project(items, PriorityOf);
      GreaterFirst(0, multiset{});
      PreferredChild(prios, Greater, i, j, n);
      NoChildAhead(prios, Greater, i, j, n);
    }

    /** One exchange of down(): slot i and its preferred child j, which
        outranks it, change places. */
    method SwapDown(i0: nat, i: nat, j: nat, n: nat)
      requires Indexed() && i0 <= i && n <= |items| && 2 * i + 1 < n
      requires j == (if 2 * i + 2 < n && Less(2 * i + 2, 2 * i + 1) then 2 * i + 2 else 2 * i + 1)
      requires Less(j, i) && DownInv(Project(items, PriorityOf), Greater, i0, i, n)
      modifies this
      ensures Indexed() && |items| == old(|items|)
      ensures DownInv(Project(items, PriorityOf), Greater, i0, j, n)
      ensures items[n..] == old(items[n..])
      ensures multiset(Project(items, ValueOf)) == old(multiset(Project(items, ValueOf)))
    {
      ghost var prios := Project(items, PriorityOf);
      assert DownInv(Swapped(prios, i, j), Greater, i0, j, n) by {
        GreaterFirst(0, multiset{});
        PreferredChild(prios, Greater, i, j, n);
        DownStep(prios, Greater, i0, i, j, n);
      }
      ExchangedBelow(items, i, j, n);
      Swap(i, j);
    }

    /** container/heap's Push: Push, then move the new last slot up. */
    method HeapPush(e: Entry<T>)
      requires Valid() && e.priority == priorityFunc(e.value)
      modifies this
      ensures Valid()
      ensures Contents() == old(Contents()) + multiset{e.value}
    {
      ghost var pushed := e.(index := |items|);
      ProjectAppend(items, PriorityOf, pushed);
      ProjectAppend(items, ValueOf, pushed);
      AppendUpInv(Project(items, PriorityOf), pushed.priority, Greater);
      Push(e);
      Up(|items| - 1, |items|);
    }

    /** container/heap's Pop: exchange the root with the last slot, move the
        new root down over the others, then Pop. */
    method HeapPop() returns (e: Entry<T>)
      requires Valid() && 0 < |items|
      modifies this
      ensures Valid()
      ensures e.value == old(items)[0].value && e.priority == old(items)[0].priority
      ensures Contents() == old(Contents()) - multiset{e.value}
    {
      GreaterFirst(0, multiset{});
      var n := |items| - 1;
      ghost var root := items[0];
      assert DownInv(Swapped(Project(items, PriorityOf), 0, n), Greater, 0, 0, n) by {
        ReplaceAt(Project(items, PriorityOf), Swapped(Project(items, PriorityOf), 0, n), Greater, 0, n);
      }
      Swap(0, n);
      assert items[n..] == [root.(index := n)];
      var _ := Down(0, n);
      assert items[n] == items[n..][0];
      e := Pop();
    }

    /** Enqueue: the value's priority is computed once, here, and the entry
        is pushed. */
    method Enqueue(value: T)
      requires Valid()
      modifies this
      ensures Valid()
      ensures Contents() == old(Contents()) + multiset{value}
      ensures Len() == old(Len()) + 1
    {
      HeapPush(Entry(value, priorityFunc(value), 0));
    }

    /** Dequeue: None when empty; otherwise the root's value, whose priority
        is the largest among the values held. */
    method Dequeue() returns (r: Option<T>)
      requires Valid()
      modifies this
      ensures Valid()
      ensures old(|items|) == 0 ==> r == None && unchanged(this)
      ensures old(|items|) > 0 ==>
        && r == Some(old(items)[0].value)
        && (forall v :: v in old(Contents()) ==> priorityFunc(v) <= priorityFunc(r.value))
        && Contents() == old(Contents()) - multiset{r.value}
    {
      if |items| == 0 {
        return None;
      }
      assert forall v :: v in Contents() ==> priorityFunc(v) <= priorityFunc(items[0].value) by {
        HighestAtRoot();
      }
      var entry := HeapPop();
      r := Some(entry.value);
    }

    /** Peek: None when empty; otherwise the root's value, whose priority is
        the largest among the values held. */
    function Peek(): (r: Option<T>)
      reads this
      requires Valid()
      ensures r.None? <==> |items| == 0
      ensures r.Some? ==>
        && r.value == items[0].value
        && forall v :: v in Contents() ==> priorityFunc(v) <= priorityFunc(r.value)
    {
      if |items| == 0 then None
      else
        HighestAtRoot();
        Some(items[0].value)
    }

    /** The root of a heap holds a value of the largest priority. */
    lemma HighestAtRoot()
      requires Valid() && 0 < |items|
      ensures forall v :: v in Contents() ==> priorityFunc(v) <= priorityFunc(items[0].value)
    {
      var prios := Project(items, PriorityOf);
      GreaterFirst(0, multiset{});
      RootIsFirst(prios, Greater);
      forall v | v in Contents()
        ensures priorityFunc(v) <= priorityFunc(items[0].value)
      {
        var k :| 0 <= k < |items| && Project(items, ValueOf)[k] == v;
        assert !Greater(prios[k], prios[0]);
      }
    }

    /** Len: the number of values. */
    function Len(): (n: int)
      reads this
      ensures n == |Contents()|
    {
      |items|
    }

    /** Values: hand the values, in slot order, to the callback keepGoing, stopping after the
        first one it answers false for. Returns what was handed over. */
    method Values(keepGoing: T -> bool) returns (yielded: seq<T>)
      ensures yielded == Yielded(Project(items, ValueOf), keepGoing)
    {
      ghost var vs := Project(items, ValueOf);
      yielded := [];
      var i := 0;
      while i < |items|
        invariant 0 <= i <= |items|
        invariant Yielded(vs, keepGoing) == yielded + Yielded(vs[i..], keepGoing)
      {
        var v := items[i].value;
        assert vs[i..] == [v] + vs[i + 1..];
        yielded := yielded + [v];
        if !keepGoing(v) {
          break;
        }
        i := i + 1;
      }
      assert i == |items| ==> vs[i..] == [];
    }

    /** Clear: no entries. */
    method Clear()
      requires Valid()
      modifies this
      ensures Valid() && items == []
    {
      items := [];
    }
  }

  /** FromSeq: a new queue holding every value of s. */
  method FromSeq<T(!new)>(s: seq<T>, priorityFunc: T -> int) returns (pq: PriorityQueue<T>)
    ensures fresh(pq) && pq.Valid()
    ensures pq.priorityFunc == priorityFunc && pq.Contents() == multiset(s)
  {
    pq := new PriorityQueue(priorityFunc);
    var i := 0;
    while i < |s|
      invariant 0 <= i <= |s|
      invariant fresh(pq) && pq.Valid() && pq.priorityFunc == priorityFunc
      invariant pq.Contents() == multiset(s[..i])
    {
      assert s[..i + 1] == s[..i] + [s[i]];
      pq.Enqueue(s[i]);
      i := i + 1;
    }
    assert s[..i] == s;
  }

  /** Clone: a new queue with a copy of the slice and the same priority
      function; later changes to either leave the other alone. */
  method Clone<T(!new)>(pq: PriorityQueue<T>) returns (c: PriorityQueue<T>)
    requires pq.Valid()
    ensures fresh(c) && c.Valid()
    ensures c.items == pq.items && c.priorityFunc == pq.priorityFunc && c.Contents() == pq.Contents()
  {
    c := new PriorityQueue(pq.priorityFunc);
    c.items := pq.items;
  }

  /** The clone example: enqueueing into a clone of a queue of two values
      leaves the original at two while the clone grows to three. */
  method CloneScenario() returns (original: int, cloned: int)
    ensures original == 2 && cloned == 3
  {
    var pq := new PriorityQueue(Identity);
    pq.Enqueue(10);
    pq.Enqueue(20);
    var c := Clone(pq);
    c.Enqueue(30);
    original := pq.Len();
    cloned := c.Len();
  }
}
