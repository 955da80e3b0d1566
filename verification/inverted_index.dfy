/** The inverted index shared by both metric layers.

    Both `_build_word_to_sentences_map` and `_build_word_to_document_map` scan a
    list of positions in order, add every position to a `defaultdict(set)` under
    each key found there, and then freeze every position set into a sorted
    list. Here a position is given by the set of keys found at it, so one
    builder serves both: position i of `keySets` holds the keys of sentence i
    (or of document i). */
module InvertedIndex {
  import opened Seqs

  /** `defaultdict(set)` lookup: the positions recorded under `k`, empty if none. */
  function Positions<K>(m: map<K, set<nat>>, k: K): set<nat> {
    if k in m then m[k] else {}
  }

  /** Adds position `i` to the set of every key in `keys`. */
  function Record<K>(m: map<K, set<nat>>, keys: set<K>, i: nat): map<K, set<nat>> {
    map k | k in m.Keys + keys :: Positions(m, k) + (if k in keys then {i} else {})
  }

  /** The accumulator after the scan has visited positions 0 .. n-1: a key is
      present exactly when it occurs at one of those positions, and its set
      holds exactly the positions where it occurs. */
  function Collect<K(!new)>(keySets: seq<set<K>>, n: nat): (r: map<K, set<nat>>)
    requires n <= |keySets|
    ensures forall k :: k in r <==> exists i :: 0 <= i < n && k in keySets[i]
    ensures forall k, i: nat {:trigger i in r[k]} :: k in r ==> (i in r[k] <==> i < n && k in keySets[i])
  {
    if n == 0 then map[] else Record(Collect(keySets, n - 1), keySets[n - 1], n - 1)
  }

  /** The elements of `s` lying in `[lo, n)`, in ascending order. */
  function AscendingFrom(s: set<nat>, lo: nat, n: nat): (r: seq<nat>)
    ensures forall x: nat :: x in r <==> lo <= x < n && x in s
    ensures StrictlyAscending(r)
    decreases n - lo
  {
    if lo >= n then []
    else
      var rest := AscendingFrom(s, lo + 1, n);
      if lo in s then PrependAscending(lo, rest); [lo] + rest else rest
  }

  /** Python's `sorted(s)` for a set of positions that are all below `n`. */
  function Sorted(s: set<nat>, n: nat): (r: seq<nat>)
    requires forall x :: x in s ==> x < n
    ensures StrictlyAscending(r)
    ensures forall x: nat :: x in r <==> x in s
  {
    AscendingFrom(s, 0, n)
  }

  /** The frozen index: each key that occurs somewhere maps to the ascending,
      duplicate-free list of exactly the positions where it occurs. */
  function Build<K(!new)>(keySets: seq<set<K>>): (r: map<K, seq<nat>>)
    ensures forall k :: k in r <==> exists i :: 0 <= i < |keySets| && k in keySets[i]
    ensures forall k :: k in r ==> r[k] != [] && StrictlyAscending(r[k])
    ensures forall k, i: nat :: k in r ==> (i in r[k] <==> i < |keySets| && k in keySets[i])
  {
    var acc := Collect(keySets, |keySets|);
    forall k, x: nat | k in acc && x in acc[k]
      ensures x < |keySets|
    {
      assert x < |keySets| && k in keySets[x];
    }
    var r := map k | k in acc :: Sorted(acc[k], |keySets|);
    assert forall k :: k in r ==> r[k] != [] by {
      forall k | k in r
        ensures r[k] != []
      {
        var i :| 0 <= i < |keySets| && k in keySets[i];
        assert (i as nat) in r[k];
      }
    }
    r
  }

  /** Reference definition: the positions from `lo` on where `k` occurs, found
      by scanning every position in order. */
  function Scan<K>(keySets: seq<set<K>>, k: K, lo: nat): seq<nat>
    decreases |keySets| - lo
  {
    if lo >= |keySets| then []
    else if k in keySets[lo] then [lo] + Scan(keySets, k, lo + 1)
    else Scan(keySets, k, lo + 1)
  }

  lemma {:induction false} ScanContents<K>(keySets: seq<set<K>>, k: K, lo: nat)
    ensures StrictlyAscending(Scan(keySets, k, lo))
    ensures forall i: nat :: i in Scan(keySets, k, lo) <==> lo <= i < |keySets| && k in keySets[i]
    decreases |keySets| - lo
  {
    if lo < |keySets| {
      ScanContents(keySets, k, lo + 1);
      if k in keySets[lo] {
        PrependAscending(lo, Scan(keySets, k, lo + 1));
      }
    }
  }

  /** Picking the items at the scanned positions keeps exactly the items
      whose flag is set, when the flags mark where the key occurs. */
  lemma {:induction false} PickScan<K, T>(items: seq<T>, keySets: seq<set<K>>, k: K, keep: seq<bool>, lo: nat)
    requires |items| == |keySets| == |keep|
    requires forall i :: 0 <= i < |keep| ==> (keep[i] <==> k in keySets[i])
    ensures forall j :: 0 <= j < |Scan(keySets, k, lo)| ==> Scan(keySets, k, lo)[j] < |items|
    ensures Pick(items, Scan(keySets, k, lo)) == Where(items, keep, lo)
    decreases |keySets| - lo
  {
    if lo < |keySets| {
      PickScan(items, keySets, k, keep, lo + 1);
      if k in keySets[lo] {
        PickCons(items, lo, Scan(keySets, k, lo + 1));
      }
    }
  }

  /** Concatenating the lists at the scanned positions gives every list from
      `lo` on concatenated, when the lists where the key does not occur are
      empty. */
  lemma {:induction false} FlattenPickScan<K, T>(lists: seq<seq<T>>, keySets: seq<set<K>>, k: K, lo: nat)
    requires |lists| == |keySets| && lo <= |lists|
    requires forall i :: 0 <= i < |lists| && k !in keySets[i] ==> lists[i] == []
    ensures forall j :: 0 <= j < |Scan(keySets, k, lo)| ==> Scan(keySets, k, lo)[j] < |lists|
    ensures Flatten(Pick(lists, Scan(keySets, k, lo))) == Flatten(lists[lo..])
    decreases |keySets| - lo
  {
    if lo < |keySets| {
      FlattenPickScan(lists, keySets, k, lo + 1);
      var rest := Scan(keySets, k, lo + 1);
      assert lists[lo..] == [lists[lo]] + lists[lo + 1..];
      FlattenCons(lists[lo], lists[lo + 1..]);
      if k in keySets[lo] {
        PickCons(lists, lo, rest);
        FlattenCons(lists[lo], Pick(lists, rest));
      }
    } else {
      assert lists[lo..] == [];
    }
  }

  /** The index agrees with the scan: looking a key up (or defaulting to the
      empty list) gives the same positions, in the same order, as visiting
      every position and keeping those where the key occurs. */
  lemma BuildIsScan<K(!new)>(keySets: seq<set<K>>, k: K)
    ensures (if k in Build(keySets) then Build(keySets)[k] else []) == Scan(keySets, k, 0)
  {
    var r := Build(keySets);
    ScanContents(keySets, k, 0);
    if Scan(keySets, k, 0) != [] {
      var i := Scan(keySets, k, 0)[0];
      assert i in Scan(keySets, k, 0);
      assert k in r;
    }
    if k in r {
      AscendingUnique(r[k], Scan(keySets, k, 0));
    }
  }
}
