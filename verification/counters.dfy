/** Python's `collections.Counter`, as far as the metrics use it: a counter
    built from a list, lookup with a default of 0, addition of two counters
    and the sum of a list of counters. A counter is a map from keys to
    counts; the iteration order of its keys is modelled separately, as a
    list. */
module Counters {
  import opened Seqs

  /** `c.get(k, 0)`: the count of `k`, 0 when `k` is not a key. */
  function Get<K>(c: map<K, nat>, k: K): nat {
    if k in c then c[k] else 0
  }

  /** Every stored count is positive, as in any counter built from a list or
      by addition. */
  predicate Positive<K>(c: map<K, nat>) {
    forall k :: k in c ==> c[k] > 0
  }

  /** `Counter(xs)`: the keys are the elements of `xs`, each counted as often
      as it occurs. */
  function FromList<K(!new)>(xs: seq<K>): (r: map<K, nat>)
    ensures Positive(r)
    ensures forall k :: k in r <==> k in xs
    ensures forall k :: Get(r, k) == Count(xs, k)
  {
    forall k
      ensures Count(xs, k) > 0 <==> k in xs
    {
      CountIsMultiplicity(xs, k);
    }
    map k | k in xs :: Count(xs, k)
  }

  /** `a + b`: every key's counts added, and only keys with a positive total
      kept. */
  function Add<K(!new)>(a: map<K, nat>, b: map<K, nat>): (r: map<K, nat>)
    ensures Positive(r)
    ensures forall k :: Get(r, k) == Get(a, k) + Get(b, k)
  {
    map k | k in a.Keys + b.Keys && Get(a, k) + Get(b, k) > 0 :: Get(a, k) + Get(b, k)
  }

  /** `reduce(add, cs, Counter())`: the counters added left to right. */
  function Sum<K(!new)>(cs: seq<map<K, nat>>): (r: map<K, nat>)
    ensures Positive(r)
  {
    if cs == [] then map[] else Add(Sum(cs[..|cs| - 1]), cs[|cs| - 1])
  }

  /** The numbers added up, left to right. */
  function Total(xs: seq<nat>): nat {
    if xs == [] then 0 else Total(xs[..|xs| - 1]) + xs[|xs| - 1]
  }

  /** The total is zero exactly when every number is. */
  lemma {:induction false} TotalZero(xs: seq<nat>)
    ensures Total(xs) == 0 <==> forall i :: 0 <= i < |xs| ==> xs[i] == 0
  {
    if xs != [] {
      var init := xs[..|xs| - 1];
      TotalZero(init);
      assert forall i :: 0 <= i < |init| ==> init[i] == xs[i];
    }
  }

  /** A key's count in the sum is the total of its counts in the summands,
      given in `col`. */
  lemma {:induction false} SumGet<K(!new)>(cs: seq<map<K, nat>>, k: K, col: seq<nat>)
    requires |col| == |cs|
    requires forall i :: 0 <= i < |cs| ==> col[i] == Get(cs[i], k)
    ensures Get(Sum(cs), k) == Total(col)
  {
    if cs != [] {
      var init := cs[..|cs| - 1];
      SumGet(init, k, col[..|col| - 1]);
    }
  }

  /** A key of the sum is a key of some summand, and conversely when every
      summand keeps only positive counts. */
  lemma {:induction false} SumKeys<K(!new)>(cs: seq<map<K, nat>>, k: K)
    requires forall i :: 0 <= i < |cs| ==> Positive(cs[i])
    ensures k in Sum(cs) <==> exists i :: 0 <= i < |cs| && k in cs[i]
  {
    if cs != [] {
      var init := cs[..|cs| - 1];
      var last := cs[|cs| - 1];
      SumKeys(init, k);
      assert Get(Sum(cs), k) == Get(Sum(init), k) + Get(last, k);
      if exists i :: 0 <= i < |cs| && k in cs[i] {
        var i :| 0 <= i < |cs| && k in cs[i];
        if i < |init| {
          assert k in init[i];
        }
      }
      if k in Sum(init) {
        var i :| 0 <= i < |init| && k in init[i];
        assert k in cs[i];
      }
    }
  }

  /** The key order of the sum of the counters built from `lists`: a counter
      built from a list keeps its keys in order of first occurrence, and
      `a + b` lists `a`'s keys first and then `b`'s new keys in their order
      (every count being positive, none is dropped). Each key appears once,
      and the keys are exactly the elements of the lists. */
  function SumOrder<K(==,!new)>(lists: seq<seq<K>>): (r: seq<K>)
    ensures Distinct(r)
  {
    if lists == [] then [] else AppendNew(SumOrder(lists[..|lists| - 1]), Dedup(lists[|lists| - 1]))
  }

  /** The key order is the order of first occurrence in the lists
      concatenated: summing `Counter`s of the lists orders the keys as one
      `Counter` of their concatenation would. */
  lemma {:induction false} SumOrderIsDedup<K(!new)>(lists: seq<seq<K>>)
    ensures SumOrder(lists) == Dedup(Flatten(lists))
  {
    if lists != [] {
      var n := |lists| - 1;
      var front := Flatten(lists[..n]);
      SumOrderIsDedup(lists[..n]);
      AppendNewDedup(Dedup(front), lists[n]);
      DedupAppend(front, lists[n]);
      assert Flatten(lists) == front + lists[n];
    }
  }

  /** The key order holds the same keys as the lists concatenated. */
  lemma {:induction false} SumOrderFlatten<K(!new)>(lists: seq<seq<K>>, k: K)
    ensures k in SumOrder(lists) <==> k in Flatten(lists)
  {
    if lists != [] {
      var n := |lists| - 1;
      SumOrderFlatten(lists[..n], k);
      assert SumOrder(lists) == AppendNew(SumOrder(lists[..n]), Dedup(lists[n]));
      assert Flatten(lists) == Flatten(lists[..n]) + lists[n];
    }
  }

  /** The key order lists exactly the elements of the lists. */
  lemma SumOrderKeys<K(!new)>(lists: seq<seq<K>>, k: K)
    ensures k in SumOrder(lists) <==> exists i :: 0 <= i < |lists| && k in lists[i]
  {
    SumOrderFlatten(lists, k);
    FlattenMembership(lists, k);
  }
}
