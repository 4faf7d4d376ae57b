/**
 * 2024 day 1: two lists of location ids.  Part 1 pairs them off smallest
 * with smallest and adds up the distances; part 2 weighs each id of the
 * left list by how often it occurs in the right list.
 */
module HistorianHysteria {
  import opened Common

  /** The distances of the pairs at equal positions, added up from the front as `inner_product` does. */
  function DistanceSum(x: seq<int>, y: seq<int>): int
    requires |x| == |y|
  {
    if |x| == 0 then 0 else Abs(x[0] - y[0]) + DistanceSum(x[1..], y[1..])
  }

  /** Part 1: both lists sorted ascending, then paired position by position; lists of different lengths are outside what the program handles. */
  function TotalDistance(a: seq<int>, b: seq<int>): int
    requires |a| == |b|
  {
    DistanceSum(SortAscending(a), SortAscending(b))
  }

  lemma {:induction false} DistanceSumNonNegative(x: seq<int>, y: seq<int>)
    requires |x| == |y|
    ensures DistanceSum(x, y) >= 0
    ensures x == y ==> DistanceSum(x, y) == 0
    decreases |x|
  {
    if |x| > 0 {
      DistanceSumNonNegative(x[1..], y[1..]);
    }
  }

  /** Part 1 sees only which ids each list holds and how often, not their order. */
  lemma TotalDistanceOfPermutations(a: seq<int>, b: seq<int>, a': seq<int>, b': seq<int>)
    requires |a| == |b|
    requires multiset(a) == multiset(a') && multiset(b) == multiset(b')
    ensures |a'| == |b'|
    ensures TotalDistance(a, b) == TotalDistance(a', b')
  {
    assert |a| == |multiset(a)| == |a'| && |b| == |multiset(b)| == |b'|;
    SortAscendingOfPermutation(a, a');
    SortAscendingOfPermutation(b, b');
  }

  /** Part 1 is never negative, and is 0 when the lists are rearrangements of each other. */
  lemma TotalDistanceOfSameIds(a: seq<int>, b: seq<int>)
    requires |a| == |b|
    ensures TotalDistance(a, b) >= 0
    ensures multiset(a) == multiset(b) ==> TotalDistance(a, b) == 0
  {
    if multiset(a) == multiset(b) {
      SortAscendingOfPermutation(a, b);
    }
    DistanceSumNonNegative(SortAscending(a), SortAscending(b));
  }

  /** The frequency table of part 2: each id of `v` mapped to the number of times it occurs. */
  method Frequencies(v: seq<int>) returns (m: map<int, nat>)
    ensures forall k :: k in m <==> k in v
    ensures forall k :: k in m ==> m[k] == Count(v, k)
  {
    m := map[];
    var i := 0;
    while i < |v|
      invariant 0 <= i <= |v|
      invariant forall k :: k in m <==> k in v[..i]
      invariant forall k :: k in m ==> m[k] == Count(v[..i], k)
    {
      assert v[..i + 1][..i] == v[..i];
      assert v[..i + 1] == v[..i] + [v[i]];
      if v[i] in m {
        m := m[v[i] := m[v[i]] + 1];
      } else {
        CountBound(v[..i], v[i]);
        m := m[v[i] := 1];
      }
      i := i + 1;
    }
    assert v[..i] == v;
  }

  /** Each id of `a` times its number of occurrences in `b`, added up. */
  function Similarity(a: seq<int>, b: seq<int>): int
  {
    if |a| == 0 then 0 else a[0] * Count(b, a[0]) + Similarity(a[1..], b)
  }

  /** Part 2: the `accumulate` over the left list that looks each id up in the frequency table. */
  method SimilarityScore(a: seq<int>, b: seq<int>) returns (score: int)
    ensures score == Similarity(a, b)
  {
    var freq := Frequencies(b);
    score := 0;
    var i := 0;
    while i < |a|
      invariant 0 <= i <= |a|
      invariant score + Similarity(a[i..], b) == Similarity(a, b)
    {
      var sum := 0;
      if a[i] in freq {
        sum := a[i] * freq[a[i]];
      } else {
        CountBound(b, a[i]);
      }
      assert a[i..][1..] == a[i + 1..];
      score := sum + score;
      i := i + 1;
    }
  }

  /** Lists with no id in common score 0 in part 2. */
  lemma {:induction false} SimilarityOfDisjoint(a: seq<int>, b: seq<int>)
    requires forall i :: 0 <= i < |a| ==> a[i] !in b
    ensures Similarity(a, b) == 0
    decreases |a|
  {
    if |a| > 0 {
      CountBound(b, a[0]);
      SimilarityOfDisjoint(a[1..], b);
    }
  }
}
