# Verified model of seven array-backed priority queues

This project models seven generic Go priority queues. Each one keeps its elements in a slice that is a binary heap, maintained by Go's `container/heap` through the package's `Len`/`Less`/`Swap`/`Push`/`Pop` methods:

- **ipqs**: the indexed priority queue, and the centrepiece. Each entry records its slot and a sequence number. An indexer maps every item to a key, and a lookup map sends each key to its slot. `Enqueue` rejects a key that is already present. The queue also provides `Update`, `Upsert`, `Delete` and `Contains`.
- **kmpqs** and **kpqs**: queues of (item, priority, sequence) elements with a key function and a lookup map. kmpqs has `Update`, `Delete` and `Contains`. kpqs has the same operations, with `Move` in place of `Update`.
- **apqs**: items are their own keys. Priorities come from a priority function, and `Refresh` recomputes an item's priority.
- **mpqs**: a plain queue of (item, priority, sequence) elements ranked by a comparator.
- **pqs**: a queue of bare ordered values ranked by a comparator.
- **priorityqueues** (the root package): a max-priority queue whose priorities come from a priority function. It also provides `FromSeq`, `Clone` and `Values`.

Each Go package becomes one Dafny module with one class, `PriorityQueue` (`IndexedPriorityQueue` in ipqs). The class merges the package's public struct and its `heapImpl`:

- The slice is a `seq` field, and the lookup map is a `map` field. Methods reassign both.
- The counter closure is an `int` field holding the last number it handed out.
- The algorithms of `container/heap` are written out as loops: `Up`, `Down`, `HeapPush`, `HeapPop`, `HeapFix` and `HeapRemove`. They call the class's own `Less`, `Swap`, `Push` and `Pop`, as Go does.
- Three helpers split those algorithms into smaller proofs. `SwapDown` is one exchange of down's loop. `Settle` is the `if !down(i, n) { up(i) }` step that Fix and Remove share. `MoveToEnd` is Remove's exchange of slot i with the last slot followed by that step.
- The sift code and its helpers are written out once per class, as each Go package carries its own heap implementation. kpqs repeats kmpqs in the same way: only `Update` becomes `Move` and the constructor takes its two functions in the other order. ipqs and priorityqueues each declare their own `Exchanged`, because their entry types differ.
- Go's parent index `(j-1)/2` truncates toward zero, so the root is its own parent. `HeapOrder.Parent` states this.

Every queue has two predicates:

- `Valid()` holds after every public call. It requires a comparator that is a strict weak order and heap order over the slice. In ipqs, kmpqs, kpqs and apqs it also requires a lookup map that indexes every slot by its key. pqs, mpqs and priorityqueues have no map. In ipqs and priorityqueues every entry must also record its own slot (`loc` and `index`).
- `Contents()` is the multiset of what the queue holds.

What the operations promise:

- Each public operation states its effect on `Contents()`, the lookup keys and the counter. When a call finds nothing to do (an empty queue, an absent key), the contract says the state is unchanged.
- `Dequeue` and `Peek` return an element that `IsFirst`: nothing held is ranked strictly ahead of it.
- `DrainIsSorted` shows that repeated removal of a first element yields a sorted permutation of the contents.

Shared modules:

- `HeapOrder`: heap order, the loop invariants of up and down, and their step lemmas.
- `KeyIndex`: consistency between the slice and the lookup map.
- `Elems`: the element type and the four stock comparators.
- `Projection`: projections of a sequence through a function.
- `Wrappers`: `Option`. Go's `(zero, false)` results become `None`.

## Model

| member | source | states |
|---|---|---|
| HeapOrder.RootIsFirst | ipqs/ipqs.go:190-196 | in a heap over a strict weak order, no slot is ranked strictly ahead of slot 0, so the root is first among the whole contents |
| HeapOrder.DrainIsSorted | pqs/pqs_test.go:45-62 | any order in which repeated removal of a first element empties a multiset is a permutation of it in which nothing comes out after an element it outranks |
| Elems.StockComparatorsAreStrictWeakOrders | kmpqs/kmpqs.go:68-94 | MinFirst, MaxFirst, StableMinFirst and StableMaxFirst are strict weak orders, and MaxFirst is MinFirst with its arguments reversed |
| Elems.StableComparatorsAreTotal | kmpqs/kmpqs.go:80-94 | the stable comparators rank any two elements whose sequence numbers differ, one way or the other |
| Elems.FirstUnderStockComparators | kmpqs/kmpqs.go:68-94 | a first element has the lowest priority (MinFirst) or the highest (MaxFirst); under the stable comparators it has, among those of that priority, the lowest sequence number |
| Elems.LatestMinFirstIsLifo | mpqs/mpqs_test.go:108-133 | the reversed-stable comparator of the example is a strict weak order whose first element has the lowest priority and, among those, the highest sequence number |
| Elems.MinFirst | mpqs/mpqs.go:75-77 | no element is ranked ahead of itself, and elements of equal priority are not ranked at all, so the heap decides their order |
| Elems.MaxFirst | mpqs/mpqs.go:81-83 | MinFirst with its arguments exchanged |
| Elems.StableMinFirst | mpqs/mpqs.go:87-92 | agrees with MinFirst wherever MinFirst ranks two elements, and among equal priorities ranks the earlier sequence number first |
| Elems.StableMaxFirst | mpqs/mpqs.go:96-101 | agrees with MaxFirst wherever MaxFirst ranks two elements, and among equal priorities ranks the earlier sequence number first |
| Elems.LatestMinFirst | mpqs/mpqs_test.go:109-115 | agrees with MinFirst wherever MinFirst ranks two elements, and among equal priorities ranks them in the reverse of StableMinFirst |
| Ipqs.IndexedPriorityQueue.NewWithIndexer | ipqs/ipqs.go:106-119 | an empty, valid queue with the given indexer and comparator and a counter at 0 |
| Ipqs.New | ipqs/ipqs.go:90-97 | NewWithIndexer with the identity as the indexer |
| Ipqs.IndexedPriorityQueue.Swap | ipqs/ipqs.go:57-63 | exchanges two entries, gives each its new slot, and repoints both keys; ranks are swapped and contents kept |
| Ipqs.IndexedPriorityQueue.Less | ipqs/ipqs.go:53-55 | in a valid queue no slot is ranked ahead of the root, and under a strict weak order no slot is ahead of itself |
| Ipqs.IndexedPriorityQueue.Push | ipqs/ipqs.go:65-71 | appends the entry with the next slot and the next sequence number, and indexes its key at that slot |
| Ipqs.IndexedPriorityQueue.Pop | ipqs/ipqs.go:73-81 | removes the last entry and its key; a prefix that was heap-ordered stays heap-ordered |
| Ipqs.IndexedPriorityQueue.Up | ipqs/ipqs.go:134 | sifting a slot up restores heap order below n, keeps the contents and leaves the slots from n on untouched |
| Ipqs.IndexedPriorityQueue.Down | ipqs/ipqs.go:145 | sifting a slot down restores heap order below n, or reports that it did not move so that Up can finish; the contents are kept |
| Ipqs.IndexedPriorityQueue.SwapDown | ipqs/ipqs.go:145 | one exchange of down: slot i changes places with its preferred child, which outranks it; down's invariant passes to the child, and the contents and keys and the slots from n on are kept |
| Ipqs.IndexedPriorityQueue.HeapPush | ipqs/ipqs.go:134 | heap push adds the entry's view to the contents and its key to the map, and keeps the heap valid |
| Ipqs.IndexedPriorityQueue.HeapPop | ipqs/ipqs.go:145 | heap pop returns the old root and removes exactly it, keeping the heap valid |
| Ipqs.IndexedPriorityQueue.HeapFix | ipqs/ipqs.go:174 | after one slot changed rank, re-establishes heap order and keeps the contents |
| Ipqs.IndexedPriorityQueue.Settle | ipqs/ipqs.go:174 | the step Fix and Remove share: slot i, possibly out of place among the first n slots, moves down, or up when it did not move down, until heap order holds below n; the contents and keys and the slots from n on are kept |
| Ipqs.IndexedPriorityQueue.HeapRemove | ipqs/ipqs.go:206 | heap remove returns the entry at slot i and removes exactly it, keeping the heap valid |
| Ipqs.IndexedPriorityQueue.MoveToEnd | ipqs/ipqs.go:206 | the first half of Remove: slot i is exchanged with the last slot and heap order is restored over the others, so the last slot holds the old slot i; the contents and keys are kept |
| Ipqs.IndexedPriorityQueue.Clear | ipqs/ipqs.go:122-125 | no entries and no keys, with the counter kept |
| Ipqs.IndexedPriorityQueue.Enqueue | ipqs/ipqs.go:129-136 | returns false, changing nothing, exactly when the key is present; otherwise it adds the item with the next sequence number, which is larger than every one held |
| Ipqs.IndexedPriorityQueue.Dequeue | ipqs/ipqs.go:140-148 | None on an empty queue, with nothing changed; otherwise it returns and removes a held entry together with its key, and no element held outranks that entry |
| Ipqs.IndexedPriorityQueue.Peek | ipqs/ipqs.go:190-196 | None exactly when empty; otherwise the item of a held entry that no element held outranks |
| Ipqs.IndexedPriorityQueue.RootFirstAmongContents | ipqs/ipqs.go:190-196 | the root's entry is held, and no element held is ranked strictly ahead of it |
| Ipqs.IndexedPriorityQueue.Len | ipqs/ipqs.go:151-153 | the number of entries, equal to the number of keys |
| Ipqs.IndexedPriorityQueue.Contains | ipqs/ipqs.go:156-160 | true exactly when some entry's item has the same key |
| Ipqs.IndexedPriorityQueue.Rewrite | ipqs/ipqs.go:170-175 | the slot always takes the new item, and takes the new priority only when it differs; it reports whether it did |
| Ipqs.IndexedPriorityQueue.Update | ipqs/ipqs.go:164-177 | returns false, changing nothing, exactly when the key is absent; otherwise it replaces that entry's item and priority and keeps its sequence number; with an equal priority nothing moves |
| Ipqs.IndexedPriorityQueue.Upsert | ipqs/ipqs.go:180-186 | a present key is updated with its sequence number kept; an absent key is enqueued with a fresh one; afterwards the key is present |
| Ipqs.IndexedPriorityQueue.Delete | ipqs/ipqs.go:200-209 | returns false, changing nothing, exactly when the key is absent; otherwise it removes exactly that entry and its key |
| Ipqs.FifoAmongEqualIsTotalOrder | ipqs/ipqs_test.go:180-185 | the test's comparator (lower priority first, then lower sequence number) is a strict weak order that ranks any two distinct ranks one way or the other |
| Ipqs.OneAtPriority | ipqs/ipqs_test.go:180-187 | on a new queue, item 1 at priority 10 is accepted with sequence number 1 |
| Ipqs.ThreeAtOnePriority | ipqs/ipqs_test.go:187-189 | enqueueing 1, 2 and 3 at priority 10 is accepted each time, with sequence numbers 1, 2 and 3 |
| Ipqs.EnqueueNewKey | ipqs/ipqs.go:129-136 | an item whose key is not held is accepted with the next sequence number |
| Ipqs.DequeueExpecting | ipqs/ipqs.go:140-148 | when one element outranks every other element held, Dequeue returns exactly it |
| Ipqs.FifoScenario | ipqs/ipqs_test.go:179-202 | three items of equal priority leave in the order they were enqueued: 1, 2, 3 |
| Kmpqs.PriorityQueue.constructor | kmpqs/kmpqs.go:99-112 | an empty, valid queue with the given comparator and key function and a counter at 0 |
| Kmpqs.PriorityQueue.Swap | kmpqs/kmpqs.go:31-35 | exchanges two slots and repoints both keys |
| Kmpqs.PriorityQueue.Less | kmpqs/kmpqs.go:27-29 | in a valid queue no slot is ranked ahead of the root, and under a strict weak order no slot is ahead of itself |
| Kmpqs.PriorityQueue.Push | kmpqs/kmpqs.go:37-41 | indexes the new key at the end and appends the element |
| Kmpqs.PriorityQueue.Pop | kmpqs/kmpqs.go:43-50 | removes the last element and its key |
| Kmpqs.PriorityQueue.Up | kmpqs/kmpqs.go:128 | sifting up restores heap order below n and keeps the contents |
| Kmpqs.PriorityQueue.Down | kmpqs/kmpqs.go:137 | sifting down restores heap order below n, or reports that it did not move |
| Kmpqs.PriorityQueue.SwapDown | kmpqs/kmpqs.go:137 | one exchange of down: slot i changes places with its preferred child, which outranks it; down's invariant passes to the child, and the contents and keys and the slots from n on are kept |
| Kmpqs.PriorityQueue.HeapPush | kmpqs/kmpqs.go:128 | adds exactly the element and its key, and keeps the heap valid |
| Kmpqs.PriorityQueue.HeapPop | kmpqs/kmpqs.go:137 | returns and removes exactly the old root |
| Kmpqs.PriorityQueue.HeapFix | kmpqs/kmpqs.go:165 | re-establishes heap order after one slot changed, keeping the contents |
| Kmpqs.PriorityQueue.Settle | kmpqs/kmpqs.go:165 | the step Fix and Remove share: slot i, possibly out of place among the first n slots, moves down, or up when it did not move down, until heap order holds below n; the contents and keys and the slots from n on are kept |
| Kmpqs.PriorityQueue.HeapRemove | kmpqs/kmpqs.go:177 | returns and removes exactly the element at slot i |
| Kmpqs.PriorityQueue.MoveToEnd | kmpqs/kmpqs.go:177 | the first half of Remove: slot i is exchanged with the last slot and heap order is restored over the others, so the last slot holds the old slot i; the contents and keys are kept |
| Kmpqs.PriorityQueue.Clear | kmpqs/kmpqs.go:115-119 | no elements, no keys, and the counter restarted |
| Kmpqs.PriorityQueue.Enqueue | kmpqs/kmpqs.go:122-129 | adds the item with the next sequence number, which is larger than every one held, and indexes its key |
| Kmpqs.PriorityQueue.Dequeue | kmpqs/kmpqs.go:132-139 | None on an empty queue, with nothing changed; otherwise it returns and removes a first-ranked element and its key |
| Kmpqs.PriorityQueue.Peek | kmpqs/kmpqs.go:142-149 | None exactly when empty; otherwise the item of a first-ranked element |
| Kmpqs.PriorityQueue.Update | kmpqs/kmpqs.go:153-167 | returns false, changing nothing, exactly when the key is absent; otherwise it replaces that element with the new item and priority under a fresh sequence number |
| Kmpqs.PriorityQueue.Delete | kmpqs/kmpqs.go:171-179 | returns false, changing nothing, exactly when the key is absent; otherwise it removes exactly that element and its key |
| Kmpqs.PriorityQueue.Len | kmpqs/kmpqs.go:182-184 | the number of elements, equal to the number of keys |
| Kmpqs.PriorityQueue.Contains | kmpqs/kmpqs.go:187-191 | true exactly when some element's item has the same key |
| Kpqs.PriorityQueue.constructor | kpqs/kpqs.go:86-99 | an empty, valid queue with the given key function and comparator and a counter at 0 |
| Kpqs.PriorityQueue.Swap | kpqs/kpqs.go:30-34 | exchanges two slots and repoints both keys |
| Kpqs.PriorityQueue.Less | kpqs/kpqs.go:26-28 | in a valid queue no slot is ranked ahead of the root, and under a strict weak order no slot is ahead of itself |
| Kpqs.PriorityQueue.Push | kpqs/kpqs.go:36-40 | indexes the new key at the end and appends the element |
| Kpqs.PriorityQueue.Pop | kpqs/kpqs.go:42-49 | removes the last element and its key |
| Kpqs.PriorityQueue.Up | kpqs/kpqs.go:113 | sifting up restores heap order below n and keeps the contents |
| Kpqs.PriorityQueue.Down | kpqs/kpqs.go:121 | sifting down restores heap order below n, or reports that it did not move |
| Kpqs.PriorityQueue.SwapDown | kpqs/kpqs.go:121 | one exchange of down: slot i changes places with its preferred child, which outranks it; down's invariant passes to the child, and the contents and keys and the slots from n on are kept |
| Kpqs.PriorityQueue.HeapPush | kpqs/kpqs.go:113 | adds exactly the element and its key, and keeps the heap valid |
| Kpqs.PriorityQueue.HeapPop | kpqs/kpqs.go:121 | returns and removes exactly the old root |
| Kpqs.PriorityQueue.HeapFix | kpqs/kpqs.go:146 | re-establishes heap order after one slot changed, keeping the contents |
| Kpqs.PriorityQueue.Settle | kpqs/kpqs.go:146 | the step Fix and Remove share: slot i, possibly out of place among the first n slots, moves down, or up when it did not move down, until heap order holds below n; the contents and keys and the slots from n on are kept |
| Kpqs.PriorityQueue.HeapRemove | kpqs/kpqs.go:156 | returns and removes exactly the element at slot i |
| Kpqs.PriorityQueue.MoveToEnd | kpqs/kpqs.go:156 | the first half of Remove: slot i is exchanged with the last slot and heap order is restored over the others, so the last slot holds the old slot i; the contents and keys are kept |
| Kpqs.PriorityQueue.Clear | kpqs/kpqs.go:101-105 | no elements, no keys, and the counter restarted |
| Kpqs.PriorityQueue.Enqueue | kpqs/kpqs.go:107-114 | adds the item with the next sequence number, which is larger than every one held, and indexes its key |
| Kpqs.PriorityQueue.Dequeue | kpqs/kpqs.go:116-123 | None on an empty queue, with nothing changed; otherwise it returns and removes a first-ranked element and its key |
| Kpqs.PriorityQueue.Peek | kpqs/kpqs.go:125-132 | None exactly when empty; otherwise the item of a first-ranked element |
| Kpqs.PriorityQueue.Move | kpqs/kpqs.go:134-148 | returns false, changing nothing, exactly when the key is absent; otherwise it replaces that element with the new item and priority under a fresh sequence number |
| Kpqs.PriorityQueue.Delete | kpqs/kpqs.go:150-158 | returns false, changing nothing, exactly when the key is absent; otherwise it removes exactly that element and its key |
| Kpqs.PriorityQueue.Len | kpqs/kpqs.go:160-162 | the number of elements, equal to the number of keys |
| Kpqs.PriorityQueue.Contains | kpqs/kpqs.go:164-168 | true exactly when some element's item has the same key |
| Apqs.PriorityQueue.constructor | apqs/apqs.go:86-98 | an empty, valid queue that stores both the comparator and the priority function, with a counter at 0 |
| Apqs.PriorityQueue.Swap | apqs/apqs.go:29-33 | exchanges two slots and repoints both items |
| Apqs.PriorityQueue.Less | apqs/apqs.go:25-27 | in a valid queue no slot is ranked ahead of the root, and under a strict weak order no slot is ahead of itself |
| Apqs.PriorityQueue.Push | apqs/apqs.go:35-39 | indexes the new item at the end and appends the element |
| Apqs.PriorityQueue.Pop | apqs/apqs.go:41-48 | removes the last element and its item from the map |
| Apqs.PriorityQueue.Up | apqs/apqs.go:112 | sifting up restores heap order below n and keeps the contents |
| Apqs.PriorityQueue.Down | apqs/apqs.go:120 | sifting down restores heap order below n, or reports that it did not move |
| Apqs.PriorityQueue.SwapDown | apqs/apqs.go:120 | one exchange of down: slot i changes places with its preferred child, which outranks it; down's invariant passes to the child, and the contents and items and the slots from n on are kept |
| Apqs.PriorityQueue.HeapPush | apqs/apqs.go:112 | adds exactly the element and its item, and keeps the heap valid |
| Apqs.PriorityQueue.HeapPop | apqs/apqs.go:120 | returns and removes exactly the old root |
| Apqs.PriorityQueue.HeapFix | apqs/apqs.go:144 | re-establishes heap order after one slot changed, keeping the contents |
| Apqs.PriorityQueue.Settle | apqs/apqs.go:144 | the step Fix and Remove share: slot i, possibly out of place among the first n slots, moves down, or up when it did not move down, until heap order holds below n; the contents and items and the slots from n on are kept |
| Apqs.PriorityQueue.HeapRemove | apqs/apqs.go:153 | returns and removes exactly the element at slot i |
| Apqs.PriorityQueue.MoveToEnd | apqs/apqs.go:153 | the first half of Remove: slot i is exchanged with the last slot and heap order is restored over the others, so the last slot holds the old slot i; the contents and items are kept |
| Apqs.PriorityQueue.Clear | apqs/apqs.go:100-104 | no elements, no items, and the counter restarted |
| Apqs.PriorityQueue.Enqueue | apqs/apqs.go:106-113 | adds the item with the priority the priority function gives it and the next sequence number |
| Apqs.PriorityQueue.Dequeue | apqs/apqs.go:115-122 | None on an empty queue, with nothing changed; otherwise it returns and removes a first-ranked element |
| Apqs.PriorityQueue.Peek | apqs/apqs.go:124-131 | None exactly when empty; otherwise the item of a first-ranked element |
| Apqs.PriorityQueue.Refresh | apqs/apqs.go:133-146 | returns false, changing nothing, exactly when the item is absent; otherwise it replaces its element with the recomputed priority under a fresh sequence number |
| Apqs.PriorityQueue.Delete | apqs/apqs.go:148-155 | returns false, changing nothing, exactly when the item is absent; otherwise it removes exactly its element |
| Apqs.PriorityQueue.Len | apqs/apqs.go:157-159 | the number of elements, equal to the number of distinct items |
| Apqs.PriorityQueue.Contains | apqs/apqs.go:161-164 | true exactly when the item is stored |
| Apqs.NewAsWritten | apqs/apqs.go:86-98 | New as written leaves the priority-function field nil |
| Apqs.PriorityFrom | apqs/apqs.go:109 | a priority is obtained exactly when the field holds a function, and it is that function's value |
| Apqs.NewAsWrittenCannotPrioritize | apqs/apqs.go:86-98 | on a queue built by New as written, no priority can be computed for any item; with the function stored, it is the function's value |
| Mpqs.PriorityQueue.constructor | mpqs/mpqs.go:106-116 | an empty, valid queue with the given comparator and a counter at 0 |
| Mpqs.PriorityQueue.Swap | mpqs/mpqs.go:43-45 | exchanges two slots |
| Mpqs.PriorityQueue.Less | mpqs/mpqs.go:39-41 | in a valid queue no slot is ranked ahead of the root, and under a strict weak order no slot is ahead of itself |
| Mpqs.PriorityQueue.Push | mpqs/mpqs.go:47-49 | appends the element |
| Mpqs.PriorityQueue.Pop | mpqs/mpqs.go:51-57 | removes the last element |
| Mpqs.PriorityQueue.Up | mpqs/mpqs.go:131 | sifting up restores heap order below n and keeps the contents |
| Mpqs.PriorityQueue.Down | mpqs/mpqs.go:141 | sifting down restores heap order below n, or reports that it did not move |
| Mpqs.PriorityQueue.SwapDown | mpqs/mpqs.go:141 | one exchange of down: slot i changes places with its preferred child, which outranks it; down's invariant passes to the child, and the contents and the slots from n on are kept |
| Mpqs.PriorityQueue.HeapPush | mpqs/mpqs.go:131 | adds exactly the element and keeps the heap valid |
| Mpqs.PriorityQueue.HeapPop | mpqs/mpqs.go:141 | returns and removes exactly the old root |
| Mpqs.PriorityQueue.Clear | mpqs/mpqs.go:119-122 | no elements and the counter restarted |
| Mpqs.PriorityQueue.Enqueue | mpqs/mpqs.go:125-132 | adds the item with the next sequence number, which is larger than every one held |
| Mpqs.PriorityQueue.Dequeue | mpqs/mpqs.go:136-143 | None on an empty queue, with nothing changed; otherwise it returns and removes a first-ranked element |
| Mpqs.PriorityQueue.Peek | mpqs/mpqs.go:147-153 | None exactly when empty; otherwise the item of a first-ranked element |
| Mpqs.PriorityQueue.Len | mpqs/mpqs.go:156-158 | the number of elements |
| Mpqs.ThreeItems | mpqs/mpqs_test.go:79-82 | enqueueing a, b and c gives them sequence numbers 1, 2 and 3 |
| Mpqs.DequeueExpecting | mpqs/mpqs.go:136-143 | when one element outranks every other element held, Dequeue returns exactly it |
| Mpqs.MinFirstScenario | mpqs/mpqs_test.go:28-41 | under MinFirst, a (3), b (1), c (2) leave in the order b, c, a |
| Mpqs.MaxFirstScenario | mpqs/mpqs_test.go:70-76 | under MaxFirst, high (3) leaves before low (1) |
| Mpqs.StableMinFirstScenario | mpqs/mpqs_test.go:78-91 | under StableMinFirst, three equal priorities leave in insertion order |
| Mpqs.StableMaxFirstScenario | mpqs/mpqs_test.go:93-106 | under StableMaxFirst, three equal priorities leave in insertion order |
| Mpqs.LatestMinFirstScenario | mpqs/mpqs_test.go:108-133 | under the reversed-stable comparator, a (1), b (2), c (2) leave in the order a, c, b |
| Pqs.StockComparators | pqs/pqs.go:45-53 | MinFirst and MaxFirst are strict weak orders; a first value is the minimum (MinFirst) or the maximum (MaxFirst) of the contents |
| Pqs.MinFirst | pqs/pqs.go:45-47 | no value is ranked ahead of itself, and of two different values the smaller is ranked ahead |
| Pqs.MaxFirst | pqs/pqs.go:51-53 | MinFirst with its arguments exchanged |
| Pqs.PriorityQueue.constructor | pqs/pqs.go:58-67 | an empty, valid queue with the given comparator |
| Pqs.PriorityQueue.Swap | pqs/pqs.go:21-23 | exchanges two slots |
| Pqs.PriorityQueue.Less | pqs/pqs.go:17-19 | in a valid queue no slot is ranked ahead of the root, and under a strict weak order no slot is ahead of itself |
| Pqs.PriorityQueue.Push | pqs/pqs.go:25-28 | appends the value |
| Pqs.PriorityQueue.Pop | pqs/pqs.go:30-36 | removes the last value |
| Pqs.PriorityQueue.Up | pqs/pqs.go:76 | sifting up restores heap order below n and keeps the contents |
| Pqs.PriorityQueue.Down | pqs/pqs.go:86 | sifting down restores heap order below n, or reports that it did not move |
| Pqs.PriorityQueue.SwapDown | pqs/pqs.go:86 | one exchange of down: slot i changes places with its preferred child, which outranks it; down's invariant passes to the child, and the contents and the slots from n on are kept |
| Pqs.PriorityQueue.HeapPush | pqs/pqs.go:76 | adds exactly the value and keeps the heap valid |
| Pqs.PriorityQueue.HeapPop | pqs/pqs.go:86 | returns and removes exactly the old root |
| Pqs.PriorityQueue.Clear | pqs/pqs.go:70-72 | no values |
| Pqs.PriorityQueue.Enqueue | pqs/pqs.go:75-77 | adds exactly the value |
| Pqs.PriorityQueue.Dequeue | pqs/pqs.go:81-88 | None on an empty queue, with nothing changed; otherwise it returns and removes a first-ranked value |
| Pqs.PriorityQueue.Peek | pqs/pqs.go:92-99 | None exactly when empty; otherwise a first-ranked value |
| Pqs.PriorityQueue.Len | pqs/pqs.go:102-104 | the number of values |
| Pqs.ThreeValues | pqs/pqs_test.go:46-49 | enqueueing 3, 1 and 2 under MinFirst holds exactly those values |
| Pqs.DequeueExpecting | pqs/pqs.go:81-88 | when one value outranks every other value held, Dequeue returns exactly it |
| Pqs.MinFirstScenario | pqs/pqs_test.go:45-62 | 3, 1, 2 under MinFirst leave in the order 1, 2, 3 |
| PriorityQueues.GreaterFirst | priorityqueues.go:32-34 | ranking by the larger priority is a strict weak order whose first element is the maximum |
| PriorityQueues.YieldedIsPrefix | priorityqueues.go:124-132 | what Values hands over is a prefix of the slots' values; the callback answered true for all but the last of them, and false for the last unless every value was handed over |
| PriorityQueues.PriorityQueue.constructor | priorityqueues.go:59-64 | an empty, valid queue with the given priority function |
| PriorityQueues.PriorityQueue.Swap | priorityqueues.go:36-40 | exchanges two entries and gives each its new index |
| PriorityQueues.PriorityQueue.Less | priorityqueues.go:32-34 | in a valid queue no slot is ranked ahead of the root, and under a strict weak order no slot is ahead of itself |
| PriorityQueues.PriorityQueue.Push | priorityqueues.go:42-47 | appends the entry with its index set to the old length |
| PriorityQueues.PriorityQueue.Pop | priorityqueues.go:49-56 | removes the last entry |
| PriorityQueues.PriorityQueue.Up | priorityqueues.go:92 | sifting up restores heap order below n and keeps the contents |
| PriorityQueues.PriorityQueue.Down | priorityqueues.go:103 | sifting down restores heap order below n, or reports that it did not move and leaves up's invariant at the start slot |
| PriorityQueues.PriorityQueue.SwapDown | priorityqueues.go:103 | one exchange of down: slot i changes places with its preferred child, which outranks it; down's invariant passes to the child, and the contents and the slots from n on are kept |
| PriorityQueues.PriorityQueue.HeapPush | priorityqueues.go:92 | adds exactly the value and keeps the heap valid |
| PriorityQueues.PriorityQueue.HeapPop | priorityqueues.go:103 | returns and removes exactly the old root |
| PriorityQueues.PriorityQueue.Enqueue | priorityqueues.go:86-93 | adds exactly the value, ranked by its priority-function value |
| PriorityQueues.PriorityQueue.Dequeue | priorityqueues.go:97-105 | None on an empty queue, with nothing changed; otherwise it removes and returns a value whose priority is the largest held |
| PriorityQueues.PriorityQueue.Peek | priorityqueues.go:109-115 | None exactly when empty; otherwise a value whose priority is the largest held |
| PriorityQueues.PriorityQueue.HighestAtRoot | priorityqueues.go:32-34 | in a valid queue the root holds a value of the largest priority |
| PriorityQueues.PriorityQueue.Len | priorityqueues.go:118-120 | the number of values |
| PriorityQueues.PriorityQueue.Values | priorityqueues.go:124-132 | hands over the values in slot order up to and including the first one the callback refuses |
| PriorityQueues.PriorityQueue.Clear | priorityqueues.go:135-137 | no entries |
| PriorityQueues.FromSeq | priorityqueues.go:67-73 | a new, valid queue holding exactly the values of the sequence |
| PriorityQueues.Clone | priorityqueues.go:76-83 | a new, valid queue with a copy of the entries and the same priority function |
| PriorityQueues.CloneScenario | priorityqueues_test.go:40-49 | enqueueing into a clone of a two-value queue leaves the original at 2 while the clone grows to 3 |

## Left out

- Kmpqs.PriorityQueue.Enqueue: requires the item's key to be absent. The source does not check, and a duplicate key leaves the map pointing at one slot only. That stale state is not modelled.
- Kpqs.PriorityQueue.Enqueue: requires the item's key to be absent, for the same reason.
- Apqs.PriorityQueue.Enqueue: requires the item to be absent, for the same reason.
- Ipqs.IndexedPriorityQueue.Pop: requires a non-empty queue. The source's `nil` return on an empty slice is never reached, because container/heap only pops after a swap into a non-empty slice.
- Comparators: the ipqs comparator ranks an entry by its priority and sequence number (`Rank`), because the slot is unexported. A comparator that inspects the item is not modelled. Every comparator must be a strict weak order.
- Priorities are integers, and so are the values of pqs. Go's `cmp.Ordered` also admits floating-point numbers and strings.
- The counter closure is an integer field. Its overflow is not modelled.
- container/heap's `j1 < 0` overflow guard in down is not modelled, since integers are unbounded here. Its `Init` is not used by any of the packages.
- The exact arrangement of the slice is not stated. Contracts speak of contents and of first-ranked elements, so the slot order printed by the `Values` example (30, 10, 20) is not proved.
- PriorityQueues.PriorityQueue.Values: returns the values it handed over as a sequence instead of a lazy iterator. `FromSeq` takes a sequence in place of an `iter.Seq`.
- PriorityQueues.PriorityQueue.Pop: the zeroing of the vacated slot is not modelled; it only releases memory. `Clear` keeping its capacity is not modelled either.
- Boxing through `any` in Push and Pop, and the type assertions on it, are not modelled.
- The example programs (scheduling, Dijkstra) and `fmt` output are not modelled.
- Some tests do not match the code as written, and they are not modelled. The root package's tests call `Collect`, which the code names `FromSeq`. The kpqs tests call `New` with a priority function and `Enqueue` without a priority, which the code does not accept.

## Findings

| source | as written | input that shows it | evidently intended | confidence | as-written member | corrected member |
|---|---|---|---|---|---|---|
| apqs/apqs.go:86-98 | `New` never stores its `prioFunc` argument, so the field stays nil | any `New(lessFunc, prioFunc)` followed by `Enqueue(pq, item)`: line 109 calls a nil function | `New` stores `prioFunc` in the queue | not executed | Apqs.NewAsWrittenCannotPrioritize | Apqs.PriorityQueue.constructor |
