/**
 * The key index of the keyed queues: a map from each stored element's key to
 * the slot that holds it. Every Swap, Push and Pop of a keyed heap updates the
 * map together with the slice; the lemmas here say that each of those updates
 * keeps the map exact.
 */
module KeyIndex {
  import opened HeapOrder

  /** m sends the key of every slot to that slot and holds no other key. */
  ghost predicate Indexes<K>(ks: seq<K>, m: map<K, int>) {
    && (forall i :: 0 <= i < |ks| ==> ks[i] in m && m[ks[i]] == i)
    && (forall k {:trigger m[k]} :: k in m ==> 0 <= m[k] < |ks| && ks[m[k]] == k)
  }

  /** An exact index forces the keys to be distinct, its key set to be the set
      of stored keys, and its size to be the number of slots. */
  lemma {:induction false} IndexesShape<K>(ks: seq<K>, m: map<K, int>)
    requires Indexes(ks, m)
    ensures forall i, j :: 0 <= i < j < |ks| ==> ks[i] != ks[j]
    ensures m.Keys == set i | 0 <= i < |ks| :: ks[i]
    ensures |m| == |ks|
    decreases |ks|
  {
    if ks == [] {
      assert m.Keys == {};
    } else {
      var n := |ks| - 1;
      var last := ks[n];
      var m' := m - {last};
      assert Indexes(ks[..n], m') by {
        forall i | 0 <= i < n
          ensures ks[..n][i] in m' && m'[ks[..n][i]] == i
        {
          assert ks[i] != last by { assert m[ks[i]] == i && m[last] == n; }
        }
      }
      IndexesShape(ks[..n], m');
      assert m.Keys == m'.Keys + {last};
      assert (set i | 0 <= i < |ks| :: ks[i]) == (set i | 0 <= i < n :: ks[..n][i]) + {last};
    }
  }

  /** Go's Swap: the slots are exchanged, then each moved key is pointed at
      its new slot. */
  lemma IndexesSwap<K>(ks: seq<K>, m: map<K, int>, i: nat, j: nat)
    requires Indexes(ks, m) && i < |ks| && j < |ks|
    ensures Indexes(Swapped(ks, i, j), m[ks[j] := i][ks[i] := j])
    ensures m[ks[j] := i][ks[i] := j].Keys == m.Keys
  {
    IndexesShape(ks, m);
  }

  /** Go's Push: a new key is appended and indexed at the new last slot. */
  lemma IndexesPush<K>(ks: seq<K>, m: map<K, int>, k: K)
    requires Indexes(ks, m) && k !in m
    ensures Indexes(ks + [k], m[k := |ks|])
  {
  }

  /** Go's Pop: the last slot is dropped and its key deleted. */
  lemma IndexesPop<K>(ks: seq<K>, m: map<K, int>)
    requires Indexes(ks, m) && 0 < |ks|
    ensures Indexes(ks[..|ks| - 1], m - {ks[|ks| - 1]})
  {
    IndexesShape(ks, m);
  }
}
