/**
 * ipqs: the indexed priority queue. Each entry records its own slot (loc)
 * and a sequence number; a lookup map sends the key an indexer extracts from
 * each item to that item's slot. Enqueue rejects a key that is already
 * present, Update changes an entry's priority in place, Delete removes an
 * entry by key.
 *
 * The Go package splits the state between IndexedPriorityQueue and
 * entryHeap; here one class holds all of it. The counter closure is an int
 * field holding the last number it handed out. The sift loops of Go's
 * container/heap are written out as Up, Down, HeapPush, HeapPop, HeapFix and
 * HeapRemove.
 *
 * The comparator sees an entry through its Priority and Sequence getters
 * only (a Rank): it cannot see loc, which is unexported, and a comparator
 * that reads the item is not modelled.
 */
module Ipqs {
  import opened HeapOrder
  import opened KeyIndex
  import opened Projection
  import opened Elems
  import opened Wrappers

  datatype Entry<T> = Entry(item: T, prio: int, loc: int, sequence: int)

  /** What the comparator ranks an entry by. */
  datatype Rank = Rank(prio: int, sequence: int)

  /** The Item getter. */
  function ItemOf<T>(e: Entry<T>): T {
    e.item
  }

  function RankOf<T>(e: Entry<T>): Rank {
    Rank(e.prio, e.sequence)
  }

  /** What the comparator ranks a held element by. */
  function RankOfElem<T>(x: Elem<T>): Rank {
    Rank(x.prio, x.sequence)
  }

  /** An entry without its slot: what the queue holds, whatever slot it is in. */
  function ViewOf<T>(e: Entry<T>): Elem<T> {
    Elem(e.item, e.prio, e.sequence)
  }

  /** entryHeap.Swap on the slice: the two entries change places and each
      records its new slot. */
  function Exchanged<T>(es: seq<Entry<T>>, i: nat, j: nat): (r: seq<Entry<T>>)
    requires i < |es| && j < |es|
    ensures |r| == |es| && r[j] == es[i].(loc := j)
    ensures i != j ==> r[i] == es[j].(loc := i)
    ensures forall k :: 0 <= k < |es| && k != i && k != j ==> r[k] == es[k]
  {
    es[i := es[j].(loc := i)][j := es[i].(loc := j)]
  }

  /** Every view that ignores loc sees an exchange as a plain swap. */
  lemma ExchangedViews<T>(es: seq<Entry<T>>, i: nat, j: nat)
    requires i < |es| && j < |es|
    ensures Project(Exchanged(es, i, j), ItemOf) == Swapped(Project(es, ItemOf), i, j)
    ensures Project(Exchanged(es, i, j), RankOf) == Swapped(Project(es, RankOf), i, j)
    ensures Project(Exchanged(es, i, j), ViewOf) == Swapped(Project(es, ViewOf), i, j)
  {
    ProjectAgree(Exchanged(es, i, j), Swapped(es, i, j), ItemOf);
    ProjectAgree(Exchanged(es, i, j), Swapped(es, i, j), RankOf);
    ProjectAgree(Exchanged(es, i, j), Swapped(es, i, j), ViewOf);
    ProjectSwapped(es, ItemOf, i, j);
    ProjectSwapped(es, RankOf, i, j);
    ProjectSwapped(es, ViewOf, i, j);
  }

  lemma ExchangedBelow<T>(es: seq<Entry<T>>, i: nat, j: nat, n: nat)
    requires i < n && j < n && n <= |es|
    ensures Exchanged(es, i, j)[n..] == es[n..]
  {
  }

  class IndexedPriorityQueue<I(==), T(!new)> {
    const indexer: T -> I
    const comparator: (Rank, Rank) -> bool
    var entries: seq<Entry<T>>
    var lookup: map<I, int>
    /** The last sequence number the counter handed out (0 before the first). */
    var counter: int

    /** The keys of the entries, slot by slot. */
    ghost function KeysOf(es: seq<Entry<T>>): seq<I> {
      Project(Project(es, ItemOf), indexer)
    }

    /** What holds between the steps of a heap operation: the comparator is
        usable, every entry records its own slot, the lookup map indexes
        every slot by its key, and every sequence number was issued by the
        counter. */
    ghost predicate Indexed()
      reads this
    {
      && StrictWeakOrder(comparator)
      && (forall i :: 0 <= i < |entries| ==> entries[i].loc == i && entries[i].sequence <= counter)
      && Indexes(KeysOf(entries), lookup)
    }

    /** What holds after every public call: in addition, heap order on ranks. */
    ghost predicate Valid()
      reads this
    {
      Indexed() && HeapOrdered(Project(entries, RankOf), comparator)
    }

    /** The entries held, without their slots. */
    ghost function Contents(): multiset<Elem<T>>
      reads this
    {
      multiset(Project(entries, ViewOf))
    }

    /** NewWithIndexer: an empty queue with the given key extractor. */
    constructor NewWithIndexer(indexer: T -> I, comparator: (Rank, Rank) -> bool)
      requires StrictWeakOrder(comparator)
      ensures Valid()
      ensures this.indexer == indexer && this.comparator == comparator
      ensures entries == [] && lookup == map[] && counter == 0
    {
      this.indexer := indexer;
      this.comparator := comparator;
      entries := [];
      lookup := map[];
      counter := 0;
    }

    /** entryHeap.Less: the entry at slot i is ranked strictly ahead of the
        one at slot j. No slot is ahead of itself, and in a valid queue no
        slot is ahead of the root, which is why Peek reads slot 0. */
    function Less(i: nat, j: nat): (r: bool)
      reads this
      requires i < |entries| && j < |entries|
      ensures StrictWeakOrder(comparator) && i == j ==> !r
      ensures Valid() && j == 0 ==> !r
    {
      assert Valid() && j == 0 ==> !comparator(RankOf(entries[i]), RankOf(entries[0])) by {
        if Valid() && j == 0 {
          NotAheadOfRoot(Project(entries, RankOf), comparator, i);
        }
      }
      comparator(RankOf(entries[i]), RankOf(entries[j]))
    }

    /** entryHeap.Swap: exchange two entries, record their new slots, and
        point both keys at those slots. */
    method Swap(i: nat, j: nat)
      requires Indexed() && i < |entries| && j < |entries|
      modifies this
      ensures Indexed()
      ensures entries == Exchanged(old(entries), i, j)
      ensures lookup == old(lookup)[indexer(old(entries)[j].item) := i][indexer(old(entries)[i].item) := j]
      ensures lookup.Keys == old(lookup.Keys) && counter == old(counter)
      ensures Project(entries, RankOf) == Swapped(old(Project(entries, RankOf)), i, j)
      ensures multiset(Project(entries, ViewOf)) == old(multiset(Project(entries, ViewOf)))
    {
      ghost var after := Exchanged(entries, i, j);
      ghost var m := lookup[indexer(entries[j].item) := i][indexer(entries[i].item) := j];
      assert Indexes(KeysOf(after), m) && m.Keys == lookup.Keys by {
        ExchangedViews(entries, i, j);
        ProjectSwapped(Project(entries, ItemOf), indexer, i, j);
        IndexesSwap(KeysOf(entries), lookup, i, j);
      }
      assert Project(after, RankOf) == Swapped(Project(entries, RankOf), i, j) by {
        ExchangedViews(entries, i, j);
      }
      assert multiset(Project(after, ViewOf)) == multiset(Project(entries, ViewOf)) by {
        ExchangedViews(entries, i, j);
        SwappedMultiset(Project(entries, ViewOf), i, j);
      }
      var ei := entries[i];
      var ej := entries[j];
      entries := entries[i := ej][j := ei];
      entries := entries[i := entries[i].(loc := i)];
      entries := entries[j := entries[j].(loc := j)];
      lookup := lookup[indexer(entries[i].item) := i];
      lookup := lookup[indexer(entries[j].item) := j];
      assert entries == after;
    }

    /** entryHeap.Push: the new entry records the next slot and the next
        sequence number, is appended, and its key is indexed. */
    method Push(e: Entry<T>)
      requires Indexed() && indexer(e.item) !in lookup
      modifies this
      ensures Indexed()
      ensures counter == old(counter) + 1
      ensures entries == old(entries) + [e.(loc := old(|entries|), sequence := counter)]
      ensures lookup == old(lookup)[indexer(e.item) := old(|entries|)]
    {
      counter := counter + 1;
      var entry := e.(loc := |entries|, sequence := counter);
      ProjectAppend(entries, ItemOf, entry);
      ProjectAppend(Project(entries, ItemOf), indexer, entry.item);
      IndexesPush(KeysOf(entries), lookup, indexer(entry.item));
      entries := entries + [entry];
      lookup := lookup[indexer(entry.item) := entry.loc];
    }

    /** entryHeap.Pop: drop the last entry and delete its key. */
    method Pop() returns (e: Entry<T>)
      requires Indexed() && 0 < |entries|
      modifies this
      ensures Indexed()
      ensures e == old(entries)[old(|entries|) - 1] && entries == old(entries)[..old(|entries|) - 1]
      ensures multiset(Project(entries, ViewOf)) == old(multiset(Project(entries, ViewOf))) - multiset{ViewOf(e)}
      ensures HeapOrderedUpTo(old(Project(entries, RankOf)), comparator, |entries|) ==>
                HeapOrdered(Project(entries, RankOf), comparator)
      ensures lookup == old(lookup) - {indexer(e.item)}
      ensures counter == old(counter)
    {
      var n := |entries| - 1;
      e := entries[n];
      ghost var s := entries;
      assert Indexes(KeysOf(s[..n]), lookup - {indexer(e.item)}) by {
        ProjectPrefix(s, ItemOf, n);
        ProjectPrefix(Project(s, ItemOf), indexer, n);
        IndexesPop(KeysOf(s), lookup);
      }
      assert multiset(Project(s[..n], ViewOf)) == multiset(Project(s, ViewOf)) - multiset{ViewOf(e)} by {
        ProjectPrefix(s, ViewOf, n);
        RemoveLast(Project(s, ViewOf), n);
      }
      assert HeapOrderedUpTo(Project(s, RankOf), comparator, n) ==> HeapOrdered(Project(s[..n], RankOf), comparator) by {
        ProjectPrefix(s, RankOf, n);
        if HeapOrderedUpTo(Project(s, RankOf), comparator, n) {
          HeapOrderedPrefix(Project(s, RankOf), comparator, n);
        }
      }
      entries := entries[..n];
      lookup := lookup - {indexer(e.item)};
    }

    /** container/heap's up: move slot j0 toward the root while it outranks
        its parent. Only slots below n take part. */
    method Up(j0: nat, ghost n: nat)
      requires Indexed() && j0 < n <= |entries| && UpInv(Project(entries, RankOf), comparator, j0, n)
      modifies this
      ensures Indexed() && |entries| == old(|entries|)
      ensures HeapOrderedUpTo(Project(entries, RankOf), comparator, n)
      ensures entries[n..] == old(entries[n..])
      ensures multiset(Project(entries, ViewOf)) == old(multiset(Project(entries, ViewOf)))
      ensures lookup.Keys == old(lookup.Keys) && counter == old(counter)
    {
      var j: nat := j0;
      while true
        invariant Indexed() && j < n <= |entries| == old(|entries|)
        invariant UpInv(Project(entries, RankOf), comparator, j, n)
        invariant entries[n..] == old(entries[n..])
        invariant multiset(Project(entries, ViewOf)) == old(multiset(Project(entries, ViewOf)))
        invariant lookup.Keys == old(lookup.Keys) && counter == old(counter)
        decreases j
      {
        var i := Parent(j);
        if i == j || !Less(j, i) {
          UpDone(Project(entries, RankOf), comparator, j, n);
          break;
        }
        assert UpInv(Swapped(Project(entries, RankOf), i, j), comparator, i, n) by {
          UpStep(Project(entries, RankOf), comparator, j, n);
        }
        ExchangedBelow(entries, i, j, n);
        Swap(i, j);
        j := i;
      }
    }

    /** container/heap's down: move slot i0 away from the root while its
        preferred child outranks it. Only slots below n take part. Reports
        whether the entry moved. */
    method Down(i0: nat, n: nat) returns (moved: bool)
      requires Indexed() && i0 <= n <= |entries| && DownInv(Project(entries, RankOf), comparator, i0, i0, n)
      modifies this
      ensures Indexed() && |entries| == old(|entries|)
      ensures moved || i0 == 0 ==> HeapOrderedUpTo(Project(entries, RankOf), comparator, n)
      ensures !moved && i0 < n ==> UpInv(Project(entries, RankOf), comparator, i0, n)
      ensures entries[n..] == old(entries[n..])
      ensures multiset(Project(entries, ViewOf)) == old(multiset(Project(entries, ViewOf)))
      ensures lookup.Keys == old(lookup.Keys) && counter == old(counter)
    {
      var i: nat := i0;
      while true
        invariant Indexed() && i0 <= i <= n <= |entries| == old(|entries|)
        invariant i == n ==> i == i0
        invariant DownInv(Project(entries, RankOf), comparator, i0, i, n)
        invariant entries[n..] == old(entries[n..])
        invariant multiset(Project(entries, ViewOf)) == old(multiset(Project(entries, ViewOf)))
        invariant lookup.Keys == old(lookup.Keys) && counter == old(counter)
        decreases n - i
      {
        var j1 := 2 * i + 1;
        if j1 >= n {
          Leaf(i, n);
          break;
        }
        var j := j1;
        var j2 := j1 + 1;
        if j2 < n && Less(j2, j1) {
          j := j2;
        }
        if !Less(j, i) {
          NoChildAheadOf(i, j, n);
          break;
        }
        SwapDown(i0, i, j, n);
        i := j;
      }
      DownDone(Project(entries, RankOf), comparator, i0, i, n);
      moved := i > i0;
    }

    /** down() stops at slot i when its preferred child j does not outrank
        it: then no child of i does. */
    lemma NoChildAheadOf(i: nat, j: nat, n: nat)
      requires StrictWeakOrder(comparator) && n <= |entries| && 2 * i + 1 < n
      requires j == (if 2 * i + 2 < n && Less(2 * i + 2, 2 * i + 1) then 2 * i + 2 else 2 * i + 1)
      requires !Less(j, i)
      ensures forall c :: 0 < c < n && Parent(c) == i ==>
                !comparator(Project(entries, RankOf)[c], Project(entries, RankOf)[i])
    {
      var ranks := Project(entries, RankOf);
      PreferredChild(ranks, comparator, i, j, n);
      NoChildAhead(ranks, comparator, i, j, n);
    }

    /** One exchange of down(): slot i and its preferred child j, which
        outranks it, change places. */
    method SwapDown(i0: nat, i: nat, j: nat, n: nat)
      requires Indexed() && i0 <= i && n <= |entries| && 2 * i + 1 < n
      requires j == (if 2 * i + 2 < n && Less(2 * i + 2, 2 * i + 1) then 2 * i + 2 else 2 * i + 1)
      requires Less(j, i) && DownInv(Project(entries, RankOf), comparator, i0, i, n)
      modifies this
      ensures Indexed() && |entries| == old(|entries|)
      ensures DownInv(Project(entries, RankOf), comparator, i0, j, n)
      ensures entries[n..] == old(entries[n..])
      ensures multiset(Project(entries, ViewOf)) == old(multiset(Project(entries, ViewOf)))
      ensures lookup.Keys == old(lookup.Keys) && counter == old(counter)
    {
      ghost var ranks := Project(entries, RankOf);
      assert DownInv(Swapped(ranks, i, j), comparator, i0, j, n) by {
        PreferredChild(ranks, comparator, i, j, n);
        DownStep(ranks, comparator, i0, i, j, n);
      }
      ExchangedBelow(entries, i, j, n);
      Swap(i, j);
    }

    /** container/heap's Push: Push, then move the new last slot up. */
    method HeapPush(e: Entry<T>)
      requires Valid() && indexer(e.item) !in lookup
      modifies this
      ensures Valid()
      ensures counter == old(counter) + 1
      ensures Contents() == old(Contents()) + multiset{Elem(e.item, e.prio, counter)}
      ensures lookup.Keys == old(lookup.Keys) + {indexer(e.item)}
    {
      ghost var pushed := e.(loc := |entries|, sequence := counter + 1);
      ProjectAppend(entries, RankOf, pushed);
      ProjectAppend(entries, ViewOf, pushed);
      AppendUpInv(Project(entries, RankOf), RankOf(pushed), comparator);
      Push(e);
      Up(|entries| - 1, |entries|);
    }

    /** container/heap's Pop: exchange the root with the last slot, move the
        new root down over the others, then Pop. */
    method HeapPop() returns (e: Entry<T>)
      requires Valid() && 0 < |entries|
      modifies this
      ensures Valid()
      ensures ViewOf(e) == ViewOf(old(entries)[0])
      ensures Contents() == old(Contents()) - multiset{ViewOf(e)}
      ensures lookup.Keys == old(lookup.Keys) - {indexer(e.item)} && counter == old(counter)
    {
      var n := |entries| - 1;
      ghost var root := entries[0];
      assert DownInv(Swapped(Project(entries, RankOf), 0, n), comparator, 0, 0, n) by {
        ReplaceAt(Project(entries, RankOf), Swapped(Project(entries, RankOf), 0, n), comparator, 0, n);
      }
      Swap(0, n);
      assert entries[n..] == [root.(loc := n)];
      var _ := Down(0, n);
      assert entries[n] == entries[n..][0];
      e := Pop();
    }

    /** The step container/heap's Fix and Remove share: slot i may be out of
        place among the first n slots; move it down, or up if it did not move
        down. */
    method Settle(i: nat, n: nat)
      requires Indexed() && i < n <= |entries| && DownInv(Project(entries, RankOf), comparator, i, i, n)
      modifies this
      ensures Indexed() && |entries| == old(|entries|)
      ensures HeapOrderedUpTo(Project(entries, RankOf), comparator, n)
      ensures entries[n..] == old(entries[n..])
      ensures multiset(Project(entries, ViewOf)) == old(multiset(Project(entries, ViewOf)))
      ensures lookup.Keys == old(lookup.Keys) && counter == old(counter)
    {
      var moved := Down(i, n);
      if !moved {
        Up(i, n);
      }
    }

    /** container/heap's Fix: re-establish heap order after slot i changed. */
    method HeapFix(i: nat)
      requires Indexed() && i < |entries| && DownInv(Project(entries, RankOf), comparator, i, i, |entries|)
      modifies this
      ensures Valid()
      ensures Contents() == old(Contents())
      ensures lookup.Keys == old(lookup.Keys) && counter == old(counter)
    {
      Settle(i, |entries|);
    }

    /** The first half of container/heap's Remove: exchange slot i with the
        last slot and restore heap order over the others, so that the last
        slot holds the old slot i. */
    method MoveToEnd(i: nat)
      requires Valid() && i < |entries|
      modifies this
      ensures Indexed() && |entries| == old(|entries|)
      ensures ViewOf(entries[|entries| - 1]) == ViewOf(old(entries)[i])
      ensures HeapOrderedUpTo(Project(entries, RankOf), comparator, |entries| - 1)
      ensures Contents() == old(Contents())
      ensures lookup.Keys == old(lookup.Keys) && counter == old(counter)
    {
      var n := |entries| - 1;
      if n != i {
        ghost var target := entries[i];
        assert DownInv(Swapped(Project(entries, RankOf), i, n), comparator, i, i, n) by {
          ReplaceAt(Project(entries, RankOf), Swapped(Project(entries, RankOf), i, n), comparator, i, n);
        }
        Swap(i, n);
        assert entries[n..] == [target.(loc := n)];
        Settle(i, n);
        assert entries[n] == entries[n..][0];
      }
    }

    /** container/heap's Remove: move slot i to the end, then Pop. */
    method HeapRemove(i: nat) returns (e: Entry<T>)
      requires Valid() && i < |entries|
      modifies this
      ensures Valid()
      ensures ViewOf(e) == ViewOf(old(entries)[i])
      ensures Contents() == old(Contents()) - multiset{ViewOf(e)}
      ensures lookup.Keys == old(lookup.Keys) - {indexer(e.item)} && counter == old(counter)
    {
      MoveToEnd(i);
      e := Pop();
    }

    /** Clear: no entries and no keys; the counter is kept, so sequence
        numbers keep growing across a Clear. */
    method Clear()
      requires Valid()
      modifies this
      ensures Valid()
      ensures entries == [] && lookup == map[] && counter == old(counter)
    {
      entries := [];
      lookup := map[];
    }

    /** Enqueue: a present key is rejected with nothing changed, and the
        counter is not advanced. Otherwise the entry is pushed with the next
        sequence number, which exceeds every number already held. */
    method Enqueue(item: T, prio: int) returns (ok: bool)
      requires Valid()
      modifies this
      ensures Valid()
      ensures ok == (indexer(item) !in old(lookup))
      ensures !ok ==> unchanged(this)
      ensures ok ==>
        && counter == old(counter) + 1
        && Contents() == old(Contents()) + multiset{Elem(item, prio, counter)}
        && (forall x :: x in old(Contents()) ==> x.sequence < counter)
        && lookup.Keys == old(lookup.Keys) + {indexer(item)}
        && Len() == old(Len()) + 1 && Contains(item)
    {
      if Contains(item) {
        return false;
      }
      HeapPush(Entry(item, prio, 0, 0));
      ok := true;
    }

    /** Dequeue: None when empty; otherwise the root, which is ranked first,
        is removed together with its key. */
    method Dequeue() returns (r: Option<T>)
      requires Valid()
      modifies this
      ensures Valid()
      ensures old(|entries|) == 0 ==> r == None && unchanged(this)
      ensures old(|entries|) > 0 ==>
        && r == Some(old(entries)[0].item)
        && IsFirst(RankOf(old(entries)[0]), multiset(old(Project(entries, RankOf))), comparator)
        && ViewOf(old(entries)[0]) in old(Contents())
        && (forall x :: x in old(Contents()) ==> !comparator(RankOfElem(x), RankOf(old(entries)[0])))
        && Contents() == old(Contents()) - multiset{ViewOf(old(entries)[0])}
        && lookup.Keys == old(lookup.Keys) - {indexer(old(entries)[0].item)}
        && counter == old(counter)
    {
      if |entries| == 0 {
        return None;
      }
      RootIsFirst(Project(entries, RankOf), comparator);
      RootFirstAmongContents();
      var entry := HeapPop();
      lookup := lookup - {indexer(entry.item)};
      r := Some(entry.item);
    }

    /** Peek: None when empty; otherwise the item of the root, which is
        ranked first. */
    function Peek(): (r: Option<T>)
      reads this
      requires Valid()
      ensures r.None? <==> |entries| == 0
      ensures r.Some? ==>
        && r.value == entries[0].item
        && IsFirst(RankOf(entries[0]), multiset(Project(entries, RankOf)), comparator)
        && ViewOf(entries[0]) in Contents()
        && forall x :: x in Contents() ==> !comparator(RankOfElem(x), RankOf(entries[0]))
    {
      if |entries| == 0 then None
      else
        RootIsFirst(Project(entries, RankOf), comparator);
        RootFirstAmongContents();
        Some(entries[0].item)
    }

    /** The root's entry is held, and no element held is ranked strictly
        ahead of it: heap order on the slots' ranks, read back through the
        contents. */
    lemma RootFirstAmongContents()
      requires Valid() && 0 < |entries|
      ensures ViewOf(entries[0]) in Contents()
      ensures forall x :: x in Contents() ==> !comparator(RankOfElem(x), RankOf(entries[0]))
    {
      var views := Project(entries, ViewOf);
      var ranks := Project(entries, RankOf);
      RootIsFirst(ranks, comparator);
      assert views[0] == ViewOf(entries[0]);
      forall x | x in Contents()
        ensures !comparator(RankOfElem(x), RankOf(entries[0]))
      {
        var k :| 0 <= k < |views| && views[k] == x;
        assert RankOfElem(x) == ranks[k];
        assert RankOf(entries[0]) == ranks[0];
      }
    }

    /** Len: the number of entries, which is also the number of keys. */
    function Len(): (n: int)
      reads this
      requires Valid()
      ensures n == |Contents()| == |lookup|
    {
      IndexesShape(KeysOf(entries), lookup);
      |entries|
    }

    /** Contains: whether some entry has the item's key. */
    function Contains(item: T): (b: bool)
      reads this
      requires Valid()
      ensures b <==> exists i :: 0 <= i < |entries| && indexer(entries[i].item) == indexer(item)
    {
      assert forall i :: 0 <= i < |entries| ==> KeysOf(entries)[i] == indexer(entries[i].item);
      indexer(item) in lookup
    }

    /** The writes Update makes to the entry in slot loc: the new item
        always, the new priority only when it differs. Reports whether the
        priority changed, in which case the slot may be out of place. */
    method Rewrite(loc: nat, item: T, prio: int) returns (reprioritized: bool)
      requires Valid() && loc < |entries| && indexer(item) == indexer(entries[loc].item)
      modifies this
      ensures Indexed() && lookup == old(lookup) && counter == old(counter)
      ensures reprioritized == (old(entries)[loc].prio != prio)
      ensures entries == old(entries)[loc := old(entries)[loc].(item := item, prio := prio)]
      ensures Contents() == old(Contents()) - multiset{ViewOf(old(entries)[loc])}
                                            + multiset{Elem(item, prio, old(entries)[loc].sequence)}
      ensures !reprioritized ==> Valid()
      ensures reprioritized ==> DownInv(Project(entries, RankOf), comparator, loc, loc, |entries|)
    {
      ghost var before := entries;
      entries := entries[loc := entries[loc].(item := item)];
      assert KeysOf(entries) == KeysOf(before) by {
        ProjectAgree(Project(entries, ItemOf), Project(before, ItemOf), indexer);
      }
      assert Project(entries, RankOf) == Project(before, RankOf) by {
        ProjectAgree(entries, before, RankOf);
      }
      reprioritized := entries[loc].prio != prio;
      if reprioritized {
        ghost var mid := entries;
        entries := entries[loc := entries[loc].(prio := prio)];
        assert KeysOf(entries) == KeysOf(mid) by {
          ProjectAgree(entries, mid, ItemOf);
        }
        assert DownInv(Project(entries, RankOf), comparator, loc, loc, |entries|) by {
          ReplaceAt(Project(mid, RankOf), Project(entries, RankOf), comparator, loc, |entries|);
        }
      }
      assert entries == before[loc := entries[loc]];
      ProjectUpdate(before, ViewOf, loc, entries[loc]);
    }

    /** Update: an absent key changes nothing. A present key's entry takes
        the new item; its priority is replaced, and the heap fixed, only when
        the priority differs. The sequence number never changes. */
    method Update(item: T, prio: int) returns (ok: bool)
      requires Valid()
      modifies this
      ensures Valid()
      ensures ok == (indexer(item) in old(lookup))
      ensures !ok ==> unchanged(this)
      ensures ok ==>
        var old_entry := old(entries)[old(lookup)[indexer(item)]];
        && Contents() == old(Contents()) - multiset{ViewOf(old_entry)}
                                         + multiset{Elem(item, prio, old_entry.sequence)}
        && lookup.Keys == old(lookup.Keys) && counter == old(counter)
      ensures ok && old(entries)[old(lookup)[indexer(item)]].prio == prio ==>
        entries == old(entries)[old(lookup)[indexer(item)] := old(entries)[old(lookup)[indexer(item)]].(item := item)]
    {
      var idx := indexer(item);
      if idx !in lookup {
        return false;
      }
      var loc := lookup[idx];
      assert KeysOf(entries)[loc] == idx;
      var reprioritized := Rewrite(loc, item, prio);
      if reprioritized {
        HeapFix(loc);
      }
      ok := true;
    }
    /** Upsert: Update when the key is present, Enqueue otherwise. */
    method Upsert(item: T, prio: int)
      requires Valid()
      modifies this
      ensures Valid()
      ensures indexer(item) in old(lookup) ==>
        var old_entry := old(entries)[old(lookup)[indexer(item)]];
        && Contents() == old(Contents()) - multiset{ViewOf(old_entry)}
                                         + multiset{Elem(item, prio, old_entry.sequence)}
        && counter == old(counter)
      ensures indexer(item) !in old(lookup) ==>
        && counter == old(counter) + 1
        && Contents() == old(Contents()) + multiset{Elem(item, prio, counter)}
      ensures lookup.Keys == old(lookup.Keys) + {indexer(item)}
    {
      if Contains(item) {
        var _ := Update(item, prio);
      } else {
        var _ := Enqueue(item, prio);
      }
    }

    /** Delete: an absent key changes nothing; a present key's entry is
        removed through heap Remove, and its key with it. */
    method Delete(item: T) returns (ok: bool)
      requires Valid()
      modifies this
      ensures Valid()
      ensures ok == (indexer(item) in old(lookup))
      ensures !ok ==> unchanged(this)
      ensures ok ==>
        && Contents() == old(Contents()) - multiset{ViewOf(old(entries)[old(lookup)[indexer(item)]])}
        && lookup.Keys == old(lookup.Keys) - {indexer(item)}
        && Len() == old(Len()) - 1 && !Contains(item)
        && counter == old(counter)
    {
      var key := indexer(item);
      if key !in lookup {
        return false;
      }
      var loc := lookup[key];
      assert KeysOf(entries)[loc] == key;
      var e := HeapRemove(loc);
      lookup := lookup - {key};
      ok := true;
    }
  }

  /** New: a queue whose items are their own keys. */
  method New<T(==, !new)>(comparator: (Rank, Rank) -> bool) returns (pq: IndexedPriorityQueue<T, T>)
    requires StrictWeakOrder(comparator)
    ensures fresh(pq) && pq.Valid()
    ensures pq.indexer == Identity && pq.comparator == comparator
    ensures pq.entries == [] && pq.lookup == map[] && pq.counter == 0
  {
    pq := new IndexedPriorityQueue.NewWithIndexer(Identity, comparator);
  }

  /** The comparator of the FIFO example: lower priority first, and on equal
      priority the lower sequence number, so the earlier insertion. */
  predicate FifoAmongEqual(x: Rank, y: Rank) {
    if x.prio == y.prio then x.sequence < y.sequence else x.prio < y.prio
  }

  /** It is a strict weak order, and it ranks any two distinct ranks one way
      or the other. */
  lemma FifoAmongEqualIsTotalOrder()
    ensures StrictWeakOrder(FifoAmongEqual)
    ensures forall x: Rank, y: Rank :: x != y ==> FifoAmongEqual(x, y) || FifoAmongEqual(y, x)
  {
  }

  /** The first step of the FIFO example: item 1 enqueued at priority 10 on
      a new queue is accepted with sequence number 1. */
  method OneAtPriority() returns (pq: IndexedPriorityQueue<int, int>, ok1: bool)
    ensures fresh(pq) && pq.Valid() && pq.comparator == FifoAmongEqual && pq.indexer == Identity
    ensures ok1 && pq.lookup.Keys == {1} && pq.counter == 1
    ensures pq.Contents() == multiset{Elem(1, 10, 1)}
  {
    assert StrictWeakOrder(FifoAmongEqual) by {
      FifoAmongEqualIsTotalOrder();
    }
    pq := New(FifoAmongEqual);
    ok1 := EnqueueNewKey(pq, 1, 10);
  }

  /** The queue of the FIFO example: 1, 2 and 3 enqueued at priority 10, each
      accepted, so with sequence numbers 1, 2, 3. */
  method ThreeAtOnePriority() returns (pq: IndexedPriorityQueue<int, int>, ok1: bool, ok2: bool, ok3: bool)
    ensures fresh(pq) && pq.Valid() && pq.comparator == FifoAmongEqual
    ensures ok1 && ok2 && ok3
    ensures pq.Contents() == multiset{Elem(1, 10, 1), Elem(2, 10, 2), Elem(3, 10, 3)}
  {
    pq, ok1 := OneAtPriority();
    ok2 := EnqueueNewKey(pq, 2, 10);
    ok3 := EnqueueNewKey(pq, 3, 10);
  }

  /** One step of an example: Enqueue of an item whose key is not held is
      accepted and takes the next sequence number. */
  method EnqueueNewKey<I(==), T(!new)>(pq: IndexedPriorityQueue<I, T>, item: T, prio: int) returns (ok: bool)
    requires pq.Valid() && pq.indexer(item) !in pq.lookup
    modifies pq
    ensures ok && pq.Valid()
    ensures pq.counter == old(pq.counter) + 1
    ensures pq.Contents() == old(pq.Contents()) + multiset{Elem(item, prio, pq.counter)}
    ensures pq.lookup.Keys == old(pq.lookup.Keys) + {pq.indexer(item)}
  {
    ok := pq.Enqueue(item, prio);
  }

  /** One step of an example: when x is ranked strictly ahead of every other
      element held, Dequeue returns x's item and leaves the rest. */
  method DequeueExpecting<I(==), T(==, !new)>(pq: IndexedPriorityQueue<I, T>, x: Elem<T>, rest: multiset<Elem<T>>)
    returns (r: Option<T>)
    requires pq.Valid() && pq.Contents() == rest + multiset{x}
    requires forall y :: y in rest && y != x ==> pq.comparator(RankOfElem(x), RankOfElem(y))
    modifies pq
    ensures pq.Valid() && pq.Contents() == rest
    ensures r == Some(x.item)
  {
    ghost var root := ViewOf(pq.entries[0]);
    r := pq.Dequeue();
    assert root == x;
  }

  /** The FIFO example: three items of equal priority leave in the order they
      were enqueued. */
  method FifoScenario() returns (first: Option<int>, second: Option<int>, third: Option<int>)
    ensures first == Some(1) && second == Some(2) && third == Some(3)
  {
    var e1, e2, e3 := Elem(1, 10, 1), Elem(2, 10, 2), Elem(3, 10, 3);
    var pq, _, _, _ := ThreeAtOnePriority();
    first := DequeueExpecting(pq, e1, multiset{e2, e3});
    second := DequeueExpecting(pq, e2, multiset{e3});
    third := DequeueExpecting(pq, e3, multiset{});
  }
}
