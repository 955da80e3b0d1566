/** Ranking of `(word, frequency)` entries for the most-common query: a stable
    sort by frequency, highest first, and Python's `list[:n]` truncation. */
module Ranking {

  datatype Option<T> = None | Some(value: T)

  /** One `(word, frequency)` tuple of the most-common query's result. */
  datatype WordCount = WordCount(word: string, frequency: nat)

  /** Frequencies never increase along the list. */
  predicate NonIncreasing(s: seq<WordCount>) {
    forall i, j :: 0 <= i < j < |s| ==> s[i].frequency >= s[j].frequency
  }

  /** No word appears in two entries. */
  predicate DistinctWords(s: seq<WordCount>) {
    forall i, j :: 0 <= i < j < |s| ==> s[i].word != s[j].word
  }

  /** The number of leading entries of `s` strictly more frequent than `x`:
      the position in front of the first entry whose frequency is not larger
      than `x`'s. */
  function Position(x: WordCount, s: seq<WordCount>): (p: nat)
    ensures p <= |s|
    ensures forall i :: 0 <= i < p ==> s[i].frequency > x.frequency
    ensures p < |s| ==> s[p].frequency <= x.frequency
  {
    if s == [] || s[0].frequency <= x.frequency then 0 else 1 + Position(x, s[1..])
  }

  /** `x` placed at position `p` of `s`. */
  function InsertAt<T>(x: T, s: seq<T>, p: nat): (r: seq<T>)
    requires p <= |s|
    ensures |r| == |s| + 1
    ensures forall k :: 0 <= k < p ==> r[k] == s[k]
    ensures r[p] == x
    ensures forall k :: p < k < |r| ==> r[k] == s[k - 1]
  {
    s[..p] + [x] + s[p..]
  }

  /** Puts `x` in front of the first entry whose frequency is not larger than
      its own, so `x` stays ahead of the entries it ties with. */
  function Insert(x: WordCount, s: seq<WordCount>): (r: seq<WordCount>)
    ensures multiset(r) == multiset(s) + multiset{x}
  {
    var p := Position(x, s);
    assert s == s[..p] + s[p..];
    InsertAt(x, s, p)
  }

  /** Inserting at the position `Position` finds keeps the list in order. */
  lemma InsertKeepsOrder(x: WordCount, s: seq<WordCount>, p: nat)
    requires NonIncreasing(s) && p <= |s|
    requires forall i :: 0 <= i < p ==> s[i].frequency > x.frequency
    requires p < |s| ==> s[p].frequency <= x.frequency
    ensures NonIncreasing(InsertAt(x, s, p))
  {
    var r := InsertAt(x, s, p);
    forall i, j | 0 <= i < j < |r|
      ensures r[i].frequency >= r[j].frequency
    {
      if j > p {
        assert r[j] == s[j - 1] && s[p].frequency >= s[j - 1].frequency;
      }
    }
  }

  /** Inserting an entry whose word is new keeps the words distinct. */
  lemma InsertKeepsWordsDistinct(x: WordCount, s: seq<WordCount>)
    requires DistinctWords(s)
    requires forall e :: e in s ==> e.word != x.word
    ensures DistinctWords(Insert(x, s))
  {
    var p := Position(x, s);
    var r := InsertAt(x, s, p);
    forall i, j | 0 <= i < j < |r|
      ensures r[i].word != r[j].word
    {
      if i == p {
        assert s[j - 1] in s;
      } else if j == p {
        assert s[i] in s;
      }
    }
  }

  /** `list.sort(key=frequency, reverse=True)`: the entries rearranged so that
      frequencies never increase. Python's sort is stable, also in reverse,
      and so is this insertion sort: tied entries keep their input order. */
  function SortByFrequency(s: seq<WordCount>): (r: seq<WordCount>)
    ensures NonIncreasing(r)
    ensures multiset(r) == multiset(s)
  {
    if s == [] then []
    else
      var rest := SortByFrequency(s[1..]);
      assert s == [s[0]] + s[1..];
      InsertKeepsOrder(s[0], rest, Position(s[0], rest));
      Insert(s[0], rest)
  }

  /** Sorting keeps distinct words distinct. */
  lemma {:induction false} SortKeepsWordsDistinct(s: seq<WordCount>)
    ensures DistinctWords(s) ==> DistinctWords(SortByFrequency(s))
  {
    if s != [] && DistinctWords(s) {
      var rest := SortByFrequency(s[1..]);
      SortKeepsWordsDistinct(s[1..]);
      forall e | e in rest
        ensures e.word != s[0].word
      {
        assert e in multiset(s[1..]);
        var j :| 0 <= j < |s[1..]| && s[1..][j] == e;
        assert s[j + 1] == e;
      }
      InsertKeepsWordsDistinct(s[0], rest);
    }
  }

  /** The entries of frequency `f`, in their order. */
  function WithFrequency(s: seq<WordCount>, f: nat): seq<WordCount> {
    if s == [] then [] else (if s[0].frequency == f then [s[0]] else []) + WithFrequency(s[1..], f)
  }

  /** Inserting behind a more frequent first entry inserts into the rest. */
  lemma InsertCons(x: WordCount, s: seq<WordCount>)
    requires s != [] && s[0].frequency > x.frequency
    ensures Insert(x, s) == [s[0]] + Insert(x, s[1..])
  {
    var p := Position(x, s[1..]);
    assert Position(x, s) == p + 1;
    assert s[..p + 1] == [s[0]] + s[1..][..p];
    assert s[p + 1..] == s[1..][p..];
  }

  /** Selecting by frequency from a list headed by `e`. */
  lemma WithFrequencyCons(e: WordCount, t: seq<WordCount>, f: nat)
    ensures WithFrequency([e] + t, f) == (if e.frequency == f then [e] else []) + WithFrequency(t, f)
  {
    assert ([e] + t)[1..] == t;
  }

  /** The insertion is stable: the new entry goes in front of the entries of
      its own frequency, which keep their order. */
  lemma {:induction false} InsertIsStable(x: WordCount, s: seq<WordCount>, f: nat)
    ensures WithFrequency(Insert(x, s), f) == (if x.frequency == f then [x] else []) + WithFrequency(s, f)
    decreases |s|
  {
    if s == [] || s[0].frequency <= x.frequency {
      assert Insert(x, s) == [x] + s;
      WithFrequencyCons(x, s, f);
    } else {
      InsertIsStable(x, s[1..], f);
      InsertCons(x, s);
      ConsIsStable(Insert(x, s[1..]), s, if x.frequency == f then [x] else [], f);
    }
  }

  /** One step of the stability proof: putting the head of `u` back in front
      of `t`, whose entries of frequency `f` are `mine` followed by those of
      the rest of `u`, when the head and `mine` are not both of frequency `f`. */
  lemma ConsIsStable(t: seq<WordCount>, u: seq<WordCount>, mine: seq<WordCount>, f: nat)
    requires u != []
    requires u[0].frequency == f ==> mine == []
    requires WithFrequency(t, f) == mine + WithFrequency(u[1..], f)
    ensures WithFrequency([u[0]] + t, f) == mine + WithFrequency(u, f)
  {
    var wr := WithFrequency(u[1..], f);
    var head: seq<WordCount> := if u[0].frequency == f then [u[0]] else [];
    assert ([u[0]] + t)[1..] == t;
    assert WithFrequency([u[0]] + t, f) == head + (mine + wr);
    assert WithFrequency(u, f) == head + wr;
    if u[0].frequency == f {
      assert mine + (head + wr) == head + wr;
    } else {
      assert head + (mine + wr) == mine + wr;
    }
  }

  /** `list.sort` is stable: the entries of each frequency appear in the
      sorted list in the order they were given. */
  lemma {:induction false} SortIsStable(s: seq<WordCount>, f: nat)
    ensures WithFrequency(SortByFrequency(s), f) == WithFrequency(s, f)
  {
    if s != [] {
      SortIsStable(s[1..], f);
      InsertIsStable(s[0], SortByFrequency(s[1..]), f);
    }
  }

  /** `s[:n]` with Python's slicing rules, or all of `s` when `n` is None:
      a non-negative `n` keeps the first `n` entries (all of them when there
      are fewer), a negative `n` drops the last `-n`. */
  function Truncate<T>(s: seq<T>, n: Option<int>): (r: seq<T>)
    ensures r <= s
    ensures n.None? ==> r == s
    ensures n.Some? && n.value >= 0 ==> |r| == if n.value < |s| then n.value else |s|
    ensures n.Some? && n.value < 0 ==> |r| == if |s| + n.value > 0 then |s| + n.value else 0
  {
    match n
    case None => s
    case Some(m) =>
      var stop := if m >= 0 then m else |s| + m;
      if stop >= |s| then s else if stop <= 0 then [] else s[..stop]
  }

  /** `entries.sort(key=frequency, reverse=True)` followed by `[:n]`. The
      result is drawn from the entries, most frequent first, keeps distinct
      words distinct, and leaves out no entry that is strictly more frequent
      than one it keeps; with `n` None it keeps every entry, and entries of
      equal frequency keep their input order. */
  function Top(entries: seq<WordCount>, n: Option<int>): (r: seq<WordCount>)
    ensures NonIncreasing(r)
    ensures forall i :: 0 <= i < |r| ==> r[i] in entries
    ensures forall e, i :: e in entries && 0 <= i < |r| && e.frequency > r[i].frequency ==> e in r
    ensures n.None? ==> forall e :: e in entries ==> e in r
    ensures n.None? ==> |r| == |entries|
    ensures n.Some? && n.value >= 0 ==> |r| == if n.value < |entries| then n.value else |entries|
    ensures n.Some? && n.value < 0 ==> |r| == if |entries| + n.value > 0 then |entries| + n.value else 0
    ensures DistinctWords(entries) ==> DistinctWords(r)
    ensures n.None? ==> forall f :: WithFrequency(r, f) == WithFrequency(entries, f)
  {
    var sorted := SortByFrequency(entries);
    SortKeepsEntries(entries);
    SortKeepsWordsDistinct(entries);
    forall f
      ensures WithFrequency(sorted, f) == WithFrequency(entries, f)
    {
      SortIsStable(entries, f);
    }
    var r := Truncate(sorted, n);
    PrefixFacts(entries, sorted, r);
    r
  }

  /** Sorting keeps the same entries. */
  lemma SortKeepsEntries(entries: seq<WordCount>)
    ensures |SortByFrequency(entries)| == |entries|
    ensures forall e :: e in SortByFrequency(entries) <==> e in entries
  {
    var sorted := SortByFrequency(entries);
    assert |multiset(sorted)| == |multiset(entries)|;
    forall e
      ensures e in entries <==> e in sorted
    {
      assert e in entries <==> e in multiset(entries);
      assert e in sorted <==> e in multiset(sorted);
    }
  }

  /** A prefix of a list sorted by non-increasing frequency is sorted, is
      drawn from the list, keeps distinct words distinct, and keeps every
      entry of the list that is strictly more frequent than one it keeps. */
  lemma PrefixFacts(entries: seq<WordCount>, sorted: seq<WordCount>, r: seq<WordCount>)
    requires NonIncreasing(sorted) && r <= sorted
    requires forall e :: e in sorted <==> e in entries
    ensures NonIncreasing(r)
    ensures forall i :: 0 <= i < |r| ==> r[i] in entries
    ensures forall e, i :: e in entries && 0 <= i < |r| && e.frequency > r[i].frequency ==> e in r
    ensures DistinctWords(sorted) ==> DistinctWords(r)
  {
    assert forall i :: 0 <= i < |r| ==> r[i] == sorted[i];
    forall i | 0 <= i < |r|
      ensures r[i] in entries
    {
      assert sorted[i] in sorted;
    }
    forall e, i | e in entries && 0 <= i < |r| && e.frequency > r[i].frequency
      ensures e in r
    {
      var p :| 0 <= p < |sorted| && sorted[p] == e;
      if p >= |r| {
        assert false;
      }
      assert r[p] == e;
    }
  }
}
