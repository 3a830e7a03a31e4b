/** `getTopWords`: the entries of the weight map whose word is longer than one character,
    sorted by decreasing absolute weight and cut to the first `count` (10 by default). */
module Ranking {
  import opened Seqs
  import opened WeightMap
  import opened Sorting

  predicate LongWord(e: Entry) { |e.word| > 1 }

  const DefaultCount: nat := 10

  function TopWords(m: Entries, count: nat): Entries {
    Take(SortDesc(Filter(m, LongWord), AbsWeight), count)
  }

  /** `getTopWords(analysisResult.wordWeightMap)`, with the default count. */
  function TopInfluentialWords(m: Entries): Entries {
    TopWords(m, DefaultCount)
  }

  /** The number of entries whose word is longer than one character. */
  function CountLong(m: Entries): (n: nat)
    ensures n <= |m|
  {
    if m == [] then 0 else (if LongWord(m[0]) then 1 else 0) + CountLong(m[1..])
  }

  lemma {:induction false} CountLongFilter(m: Entries)
    ensures |Filter(m, LongWord)| == CountLong(m)
  {
    if m != [] {
      CountLongFilter(m[1..]);
    }
  }

  /** `min(count, number of long words)` entries, each an entry of the map with a long word. */
  lemma TopWordsEntries(m: Entries, count: nat)
    ensures |TopWords(m, count)| == if count < CountLong(m) then count else CountLong(m)
    ensures forall i :: 0 <= i < |TopWords(m, count)| ==>
              TopWords(m, count)[i] in m && |TopWords(m, count)[i].word| > 1
  {
    var l := Filter(m, LongWord);
    var s := SortDesc(l, AbsWeight);
    CountLongFilter(m);
    FilterMembers(m, LongWord);
    SortDescPermutation(l, AbsWeight);
    forall i | 0 <= i < |TopWords(m, count)|
      ensures TopWords(m, count)[i] in m && |TopWords(m, count)[i].word| > 1
    {
      assert TopWords(m, count)[i] == s[i];
      assert s[i] in multiset(s);
    }
  }

  /** The entries come in non-increasing order of absolute weight, and among entries of
      equal absolute weight in the order of the map. */
  lemma TopWordsOrder(m: Entries, count: nat, v: real)
    ensures SortedDesc(TopWords(m, count), AbsWeight)
    ensures Ties(TopWords(m, count), AbsWeight, v) <= Ties(Filter(m, LongWord), AbsWeight, v)
  {
    var l := Filter(m, LongWord);
    SortDescSorted(l, AbsWeight);
    SortDescStable(l, AbsWeight, v);
    TiesPrefix(TopWords(m, count), SortDesc(l, AbsWeight), AbsWeight, v);
  }

  /** Nothing left out outweighs anything kept: the result takes entries of the long-word
      part of the map, and every long-word entry it leaves out has an absolute weight no
      larger than that of any entry it keeps. */
  lemma TopWordsHeaviest(m: Entries, count: nat)
    ensures multiset(TopWords(m, count)) <= multiset(Filter(m, LongWord))
    ensures forall e, i ::
              (e in multiset(Filter(m, LongWord)) - multiset(TopWords(m, count)) && 0 <= i < |TopWords(m, count)|)
              ==> AbsWeight(e) <= AbsWeight(TopWords(m, count)[i])
  {
    var l := Filter(m, LongWord);
    SortDescSorted(l, AbsWeight);
    SortDescPermutation(l, AbsWeight);
    PrefixHeaviest(SortDesc(l, AbsWeight), TopWords(m, count), l, AbsWeight);
  }

  /** A prefix of a sorted permutation of `l` is part of `l`, and outweighs the rest of it. */
  lemma PrefixHeaviest<T>(s: seq<T>, r: seq<T>, l: seq<T>, key: T -> real)
    requires SortedDesc(s, key) && multiset(s) == multiset(l) && r <= s
    ensures multiset(r) <= multiset(l)
    ensures forall e, i :: (e in multiset(l) - multiset(r) && 0 <= i < |r|) ==> key(e) <= key(r[i])
  {
    var rest := s[|r|..];
    assert s == r + rest;
    assert multiset(s) == multiset(r) + multiset(rest);
    forall e, i | e in multiset(l) - multiset(r) && 0 <= i < |r|
      ensures key(e) <= key(r[i])
    {
      assert e in multiset(rest);
      assert e in rest;
      var j :| 0 <= j < |rest| && rest[j] == e;
      assert s[|r| + j] == e && s[i] == r[i];
    }
  }
}
