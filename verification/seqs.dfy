/** Sequence vocabulary shared by the metrics: concatenation of nested lists,
    occurrence counts, first-occurrence de-duplication and strictly ascending
    index lists. */
module Seqs {

  /** `reduce(add, xss, [])`: the lists concatenated left to right. */
  function Flatten<T>(xss: seq<seq<T>>): seq<T>
  {
    if xss == [] then [] else Flatten(xss[..|xss| - 1]) + xss[|xss| - 1]
  }

  /** Flattening distributes over concatenation of the outer list, so the
      inner lists keep their order and their elements keep theirs. */
  lemma {:induction false} FlattenAppend<T>(a: seq<seq<T>>, b: seq<seq<T>>)
    ensures Flatten(a + b) == Flatten(a) + Flatten(b)
    decreases |b|
  {
    if b == [] {
      assert a + b == a;
    } else {
      var b' := b[..|b| - 1];
      var ab := a + b;
      assert ab[..|ab| - 1] == a + b' && ab[|ab| - 1] == b[|b| - 1];
      FlattenAppend(a, b');
      assert Flatten(ab) == Flatten(a + b') + b[|b| - 1];
    }
  }

  /** An element occurs in the flattened list exactly when it occurs in one
      of the inner lists. */
  lemma {:induction false} FlattenMembership<T>(xss: seq<seq<T>>, x: T)
    ensures x in Flatten(xss) <==> exists i :: 0 <= i < |xss| && x in xss[i]
  {
    if xss != [] {
      var init := xss[..|xss| - 1];
      FlattenMembership(init, x);
      if x in Flatten(init) {
        var i :| 0 <= i < |init| && x in init[i];
        assert x in xss[i];
      }
    }
  }

  /** Flattening a list headed by `x` starts with `x`. */
  lemma FlattenCons<T>(x: seq<T>, xss: seq<seq<T>>)
    ensures Flatten([x] + xss) == x + Flatten(xss)
  {
    FlattenAppend([x], xss);
    assert [x][..0] == [];
  }

  /** The flattened list is empty exactly when every inner list is. */
  lemma {:induction false} FlattenEmpty<T>(xss: seq<seq<T>>)
    ensures Flatten(xss) == [] <==> forall i :: 0 <= i < |xss| ==> xss[i] == []
  {
    if xss != [] {
      var init := xss[..|xss| - 1];
      FlattenEmpty(init);
      assert forall i :: 0 <= i < |init| ==> init[i] == xss[i];
    }
  }

  /** The number of occurrences of `x` in `s`. */
  function Count<T(==)>(s: seq<T>, x: T): nat
  {
    if s == [] then 0 else Count(s[..|s| - 1], x) + (if s[|s| - 1] == x then 1 else 0)
  }

  /** Counting agrees with the multiset of the list; in particular the count is
      positive exactly for the elements of the list. */
  lemma {:induction false} CountIsMultiplicity<T>(s: seq<T>, x: T)
    ensures Count(s, x) == multiset(s)[x]
    ensures Count(s, x) > 0 <==> x in s
  {
    if s != [] {
      var init := s[..|s| - 1];
      CountIsMultiplicity(init, x);
      assert s == init + [s[|s| - 1]];
      assert multiset(s) == multiset(init) + multiset{s[|s| - 1]};
    }
  }

  /** Counting distributes over concatenation. */
  lemma {:induction false} CountAppend<T>(a: seq<T>, b: seq<T>, x: T)
    ensures Count(a + b, x) == Count(a, x) + Count(b, x)
  {
    CountIsMultiplicity(a + b, x);
    CountIsMultiplicity(a, x);
    CountIsMultiplicity(b, x);
    assert multiset(a + b) == multiset(a) + multiset(b);
  }

  /** No element occurs twice. */
  predicate Distinct<T(==)>(s: seq<T>) {
    forall i, j :: 0 <= i < j < |s| ==> s[i] != s[j]
  }

  /** The position of the first occurrence of `x` in `s`. */
  function First<T(==)>(s: seq<T>, x: T): (p: nat)
    requires x in s
    ensures p < |s| && s[p] == x
    ensures forall k :: 0 <= k < p ==> s[k] != x
  {
    var n := |s| - 1;
    if x in s[..n] then First(s[..n], x)
    else
      assert s == s[..n] + [s[n]];
      n
  }

  /** The elements of `s` in order of first occurrence: the key order of a
      Python dict (or `Counter`) filled from `s`. The order is stated by
      `DedupOrder`. */
  function Dedup<T(==,!new)>(s: seq<T>): (r: seq<T>)
    ensures Distinct(r)
    ensures forall x :: x in r <==> x in s
  {
    if s == [] then []
    else
      var init := Dedup(s[..|s| - 1]);
      var last := s[|s| - 1];
      assert forall x :: x in s <==> x in s[..|s| - 1] || x == last;
      if last in init then init else init + [last]
  }

  /** `Dedup` lists the elements in the order of their first occurrences. */
  lemma {:induction false} DedupOrder<T(!new)>(s: seq<T>)
    ensures forall i, j :: 0 <= i < j < |Dedup(s)| ==> First(s, Dedup(s)[i]) < First(s, Dedup(s)[j])
  {
    if s != [] {
      var n := |s| - 1;
      var init := Dedup(s[..n]);
      DedupOrder(s[..n]);
      forall i | 0 <= i < |init|
        ensures init[i] in s[..n] && First(s, init[i]) == First(s[..n], init[i]) < n
      {
        assert init[i] in init;
      }
      if s[n] !in init {
        var r := init + [s[n]];
        assert Dedup(s) == r;
        assert s[n] !in s[..n];
        assert First(s, s[n]) == n;
        forall i, j | 0 <= i < j < |r|
          ensures First(s, r[i]) < First(s, r[j])
        {
          if j < |init| {
            assert r[i] == init[i] && r[j] == init[j];
          } else {
            assert r[i] == init[i];
          }
        }
      }
    }
  }

  /** `a` followed by those elements of `b` that are not in `a`, in `b`'s order
      of first occurrence (stated by `AppendNewOrder`), each once: the key
      order of `Counter.__add__` when every count is positive. */
  function AppendNew<T(==,!new)>(a: seq<T>, b: seq<T>): (r: seq<T>)
    requires Distinct(a)
    ensures Distinct(r)
    ensures a <= r
    ensures forall x :: x in r <==> x in a || x in b
    ensures forall i :: |a| <= i < |r| ==> r[i] in b && r[i] !in a
  {
    if b == [] then a
    else
      var init := AppendNew(a, b[..|b| - 1]);
      var last := b[|b| - 1];
      assert forall x :: x in b <==> x in b[..|b| - 1] || x == last;
      if last in init then init else init + [last]
  }

  /** The elements `AppendNew` adds behind `a` come in the order of their
      first occurrences in `b`. */
  lemma {:induction false} AppendNewOrder<T(!new)>(a: seq<T>, b: seq<T>)
    requires Distinct(a)
    ensures forall i, j :: |a| <= i < j < |AppendNew(a, b)| ==> First(b, AppendNew(a, b)[i]) < First(b, AppendNew(a, b)[j])
  {
    if b != [] {
      var n := |b| - 1;
      var init := AppendNew(a, b[..n]);
      AppendNewOrder(a, b[..n]);
      forall i | |a| <= i < |init|
        ensures init[i] in b[..n] && First(b, init[i]) == First(b[..n], init[i]) < n
      {
        assert init[i] in init;
      }
      if b[n] !in init {
        var r := init + [b[n]];
        assert AppendNew(a, b) == r;
        assert b[n] !in b[..n];
        assert First(b, b[n]) == n;
        forall i, j | |a| <= i < j < |r|
          ensures First(b, r[i]) < First(b, r[j])
        {
          if j < |init| {
            assert r[i] == init[i] && r[j] == init[j];
          } else {
            assert r[i] == init[i];
          }
        }
      }
    }
  }

  /** One step of `Dedup`, for a list given as its front and its last element. */
  lemma DedupStep<T(!new)>(s: seq<T>, init: seq<T>, last: T)
    requires s != [] && s[..|s| - 1] == init && s[|s| - 1] == last
    ensures Dedup(s) == if last in Dedup(init) then Dedup(init) else Dedup(init) + [last]
  {
  }

  /** One step of `AppendNew`, for a list given as its front and its last element. */
  lemma AppendNewStep<T(!new)>(a: seq<T>, b: seq<T>, init: seq<T>, last: T)
    requires Distinct(a)
    requires b != [] && b[..|b| - 1] == init && b[|b| - 1] == last
    ensures AppendNew(a, b) == if last in AppendNew(a, init) then AppendNew(a, init) else AppendNew(a, init) + [last]
  {
  }

  /** De-duplicating a concatenation keeps the first part's order and then
      adds the second part's new elements. */
  lemma {:induction false} DedupAppend<T(!new)>(a: seq<T>, b: seq<T>)
    ensures Dedup(a + b) == AppendNew(Dedup(a), b)
    decreases |b|
  {
    if b == [] {
      assert a + b == a;
    } else {
      var n := |b| - 1;
      var ab := a + b;
      assert ab[..|ab| - 1] == a + b[..n] && ab[|ab| - 1] == b[n];
      DedupAppend(a, b[..n]);
      DedupStep(ab, a + b[..n], b[n]);
      AppendNewStep(Dedup(a), b, b[..n], b[n]);
    }
  }

  /** Appending the new elements of `b` is the same as appending the new
      elements of `b` de-duplicated. */
  lemma {:induction false} AppendNewDedup<T(!new)>(a: seq<T>, b: seq<T>)
    requires Distinct(a)
    ensures AppendNew(a, Dedup(b)) == AppendNew(a, b)
    decreases |b|
  {
    if b != [] {
      var n := |b| - 1;
      var d := Dedup(b[..n]);
      AppendNewDedup(a, b[..n]);
      if b[n] !in d {
        var d' := d + [b[n]];
        assert Dedup(b) == d';
        assert d'[..|d'| - 1] == d && d'[|d'| - 1] == b[n];
      }
    }
  }

  /** A distinct list has as many elements as the set of its elements. */
  lemma {:induction false} DistinctCardinality<T>(s: seq<T>)
    requires Distinct(s)
    ensures |set x | x in s| == |s|
  {
    if s != [] {
      var init := s[..|s| - 1];
      var last := s[|s| - 1];
      DistinctCardinality(init);
      assert last !in init;
      assert (set x | x in s) == (set x | x in init) + {last};
    }
  }

  /** Every element is strictly smaller than every later one. */
  predicate StrictlyAscending(s: seq<int>) {
    forall i, j :: 0 <= i < j < |s| ==> s[i] < s[j]
  }

  /** A value below every element of an ascending list can be put in front of it. */
  lemma PrependAscending(x: int, s: seq<int>)
    requires StrictlyAscending(s)
    requires forall y :: y in s ==> x < y
    ensures StrictlyAscending([x] + s)
  {
    var r := [x] + s;
    forall i, j | 0 <= i < j < |r|
      ensures r[i] < r[j]
    {
      assert r[j] == s[j - 1] && s[j - 1] in s;
      if i > 0 {
        assert r[i] == s[i - 1];
      }
    }
  }

  /** Two strictly ascending lists with the same elements are equal: a sorted
      list is determined by its set of elements. */
  lemma {:induction false} AscendingUnique(a: seq<int>, b: seq<int>)
    requires StrictlyAscending(a) && StrictlyAscending(b)
    requires forall x :: x in a <==> x in b
    ensures a == b
    decreases |a|
  {
    if a != [] {
      assert a[0] in a;
    }
    if b != [] {
      assert b[0] in b;
    }
    if a != [] && b != [] {
      assert a[0] == b[0] by {
        var ja :| 0 <= ja < |a| && a[ja] == b[0];
        var jb :| 0 <= jb < |b| && b[jb] == a[0];
        assert forall k :: 0 <= k < |a| ==> a[0] <= a[k];
        assert forall k :: 0 <= k < |b| ==> b[0] <= b[k];
      }
      forall x
        ensures x in a[1..] <==> x in b[1..]
      {
        if x in a[1..] {
          var i :| 1 <= i < |a| && a[i] == x;
          assert x in b && x != b[0];
        }
        if x in b[1..] {
          var i :| 1 <= i < |b| && b[i] == x;
          assert x in a && x != a[0];
        }
      }
      AscendingUnique(a[1..], b[1..]);
    }
  }

  /** The items from position `lo` on whose flag in `keep` is set, in order. */
  function Where<T>(items: seq<T>, keep: seq<bool>, lo: nat): seq<T>
    requires |keep| == |items|
    decreases |items| - lo
  {
    if lo >= |items| then []
    else if keep[lo] then [items[lo]] + Where(items, keep, lo + 1)
    else Where(items, keep, lo + 1)
  }

  /** Nothing is kept exactly when no flag from `lo` on is set. */
  lemma {:induction false} WhereEmpty<T>(items: seq<T>, keep: seq<bool>, lo: nat)
    requires |keep| == |items|
    ensures Where(items, keep, lo) == [] <==> forall i :: lo <= i < |keep| ==> !keep[i]
    decreases |items| - lo
  {
    if lo < |items| {
      WhereEmpty(items, keep, lo + 1);
    }
  }

  /** Selecting never yields more items than there are from `lo` on. */
  lemma {:induction false} WhereLength<T>(items: seq<T>, keep: seq<bool>, lo: nat)
    requires |keep| == |items| && lo <= |items|
    ensures |Where(items, keep, lo)| <= |items| - lo
    decreases |items| - lo
  {
    if lo < |items| {
      WhereLength(items, keep, lo + 1);
    }
  }

  /** `[xs[i] for i in idx]`. */
  function Pick<T>(xs: seq<T>, idx: seq<nat>): (r: seq<T>)
    requires forall j :: 0 <= j < |idx| ==> idx[j] < |xs|
    ensures |r| == |idx|
  {
    if idx == [] then [] else [xs[idx[0]]] + Pick(xs, idx[1..])
  }

  /** Picking from a list of indices headed by `i` picks `xs[i]` first. */
  lemma PickCons<T>(xs: seq<T>, i: nat, idx: seq<nat>)
    requires i < |xs|
    requires forall j :: 0 <= j < |idx| ==> idx[j] < |xs|
    ensures forall j :: 0 <= j < |[i] + idx| ==> ([i] + idx)[j] < |xs|
    ensures Pick(xs, [i] + idx) == [xs[i]] + Pick(xs, idx)
  {
    assert ([i] + idx)[1..] == idx;
  }
}
