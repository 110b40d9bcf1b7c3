/**
 * The element of the sequence-numbered queues (an item, its priority and its
 * insertion sequence number) and the four stock comparators over it.
 *
 * kmpqs, kpqs, apqs and mpqs each declare this same three-field Elem and the
 * same four comparators; ipqs exposes exactly these three fields of its Entry
 * through its Item, Priority and Sequence getters. The model declares them
 * once. Priorities are integers.
 */
module Elems {
  import opened HeapOrder

  datatype Elem<T> = Elem(item: T, prio: int, sequence: int)

  /** Lower priority first. No element is ahead of itself, and elements of
      equal priority are not ordered at all: among them the heap decides. */
  function MinFirst<T>(x: Elem<T>, y: Elem<T>): (r: bool)
    ensures r ==> x != y
    ensures x.prio == y.prio ==> !r
  {
    x.prio < y.prio
  }

  /** Higher priority first: MinFirst with its arguments exchanged. */
  function MaxFirst<T>(x: Elem<T>, y: Elem<T>): (r: bool)
    ensures r == MinFirst(y, x)
  {
    x.prio > y.prio
  }

  /** Lower priority first; on equal priority, the earlier insertion first.
      It agrees with MinFirst wherever MinFirst orders two elements, and
      orders the ties MinFirst leaves by sequence number. */
  function StableMinFirst<T>(x: Elem<T>, y: Elem<T>): (r: bool)
    ensures MinFirst(x, y) ==> r
    ensures MinFirst(y, x) ==> !r
    ensures x.prio == y.prio ==> (r <==> x.sequence < y.sequence)
  {
    if x.prio == y.prio then x.sequence < y.sequence else x.prio < y.prio
  }

  /** Higher priority first; on equal priority, the earlier insertion first.
      It agrees with MaxFirst wherever MaxFirst orders two elements, and
      orders the ties MaxFirst leaves by sequence number. */
  function StableMaxFirst<T>(x: Elem<T>, y: Elem<T>): (r: bool)
    ensures MaxFirst(x, y) ==> r
    ensures MaxFirst(y, x) ==> !r
    ensures x.prio == y.prio ==> (r <==> x.sequence < y.sequence)
  {
    if x.prio == y.prio then x.sequence < y.sequence else x.prio > y.prio
  }

  /** Every stock comparator is a strict weak order, so each may be used to
      build a queue. MaxFirst is MinFirst with its arguments exchanged. */
  lemma StockComparatorsAreStrictWeakOrders<T(!new)>()
    ensures StrictWeakOrder(MinFirst<T>)
    ensures StrictWeakOrder(MaxFirst<T>)
    ensures StrictWeakOrder(StableMinFirst<T>)
    ensures StrictWeakOrder(StableMaxFirst<T>)
    ensures forall x: Elem<T>, y: Elem<T> :: MaxFirst(x, y) == MinFirst(y, x)
  {
  }

  /** The stable comparators rank any two elements with different
      (priority, sequence) pairs one way or the other: they are total on
      elements whose sequence numbers differ. */
  lemma StableComparatorsAreTotal<T>(x: Elem<T>, y: Elem<T>)
    requires x.sequence != y.sequence
    ensures StableMinFirst(x, y) || StableMinFirst(y, x)
    ensures StableMaxFirst(x, y) || StableMaxFirst(y, x)
  {
  }

  /** What a first-ranked element is under each stock comparator: the lowest
      (or highest) priority, and under the stable ones also the lowest
      sequence number among the elements of that priority, which makes
      equal priorities leave in insertion order (FIFO). */
  lemma {:induction false} FirstUnderStockComparators<T>(e: Elem<T>, m: multiset<Elem<T>>)
    ensures IsFirst(e, m, MinFirst<T>) ==>
              forall x :: x in m ==> e.prio <= x.prio
    ensures IsFirst(e, m, MaxFirst<T>) ==>
              forall x :: x in m ==> x.prio <= e.prio
    ensures IsFirst(e, m, StableMinFirst<T>) ==>
              forall x :: x in m ==> e.prio < x.prio || (e.prio == x.prio && e.sequence <= x.sequence)
    ensures IsFirst(e, m, StableMaxFirst<T>) ==>
              forall x :: x in m ==> e.prio > x.prio || (e.prio == x.prio && e.sequence <= x.sequence)
  {
  }

  /** A comparator that prefers the larger sequence number among equal
      priorities (the LIFO variant a caller may supply). */
  function LatestMinFirst<T>(x: Elem<T>, y: Elem<T>): (r: bool)
    ensures MinFirst(x, y) ==> r
    ensures MinFirst(y, x) ==> !r
    ensures x.prio == y.prio ==> (r <==> StableMinFirst(y, x))
  {
    if x.prio == y.prio then x.sequence > y.sequence else x.prio < y.prio
  }

  /** It is a strict weak order too, and it sends the latest insertion of the
      lowest priority out first. */
  lemma LatestMinFirstIsLifo<T(!new)>(e: Elem<T>, m: multiset<Elem<T>>)
    ensures StrictWeakOrder(LatestMinFirst<T>)
    ensures IsFirst(e, m, LatestMinFirst<T>) ==>
              forall x :: x in m ==> e.prio < x.prio || (e.prio == x.prio && e.sequence >= x.sequence)
  {
  }

  /** The sequence of keys of a sequence of elements. */
  function Keys<K, T>(es: seq<Elem<T>>, key: T -> K): (ks: seq<K>)
    ensures |ks| == |es|
    ensures forall i {:trigger ks[i]} :: 0 <= i < |es| ==> ks[i] == key(es[i].item)
  {
    seq(|es|, i requires 0 <= i < |es| => key(es[i].item))
  }

  lemma KeysSwapped<K, T>(es: seq<Elem<T>>, key: T -> K, i: nat, j: nat)
    requires i < |es| && j < |es|
    ensures Keys(Swapped(es, i, j), key) == Swapped(Keys(es, key), i, j)
  {
  }

  lemma KeysAppend<K, T>(es: seq<Elem<T>>, key: T -> K, e: Elem<T>)
    ensures Keys(es + [e], key) == Keys(es, key) + [key(e.item)]
  {
  }

  lemma KeysPrefix<K, T>(es: seq<Elem<T>>, key: T -> K, n: nat)
    requires n <= |es|
    ensures Keys(es[..n], key) == Keys(es, key)[..n]
  {
  }

  /** Overwriting a slot with an element of the same key keeps the keys. */
  lemma KeysSameKey<K, T>(es: seq<Elem<T>>, key: T -> K, i: nat, e: Elem<T>)
    requires i < |es| && key(e.item) == key(es[i].item)
    ensures Keys(es[i := e], key) == Keys(es, key)
  {
  }
}
