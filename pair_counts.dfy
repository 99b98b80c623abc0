/** What `find_freq_pair` computes, stated independently of its dictionary:
    adjacent-pair counts, first occurrences, and the most frequent pair with
    ties broken by the earliest first occurrence. */
module PairCounts {
  import opened Types

  /** The number of adjacent positions, `len(token_ids) - 1` but never negative. */
  function NumPairs(s: seq<Id>): nat
  {
    if |s| < 2 then 0 else |s| - 1
  }

  /** The pair at position `i`. */
  function At(s: seq<Id>, i: nat): Pair
    requires i < NumPairs(s)
  {
    (s[i], s[i + 1])
  }

  /** How often `p` occurs adjacently at positions before `k`. */
  function CountIn(s: seq<Id>, p: Pair, k: nat): nat
    requires k <= NumPairs(s)
  {
    if k == 0 then 0 else CountIn(s, p, k - 1) + (if At(s, k - 1) == p then 1 else 0)
  }

  /** How often `p` occurs adjacently in `s`. */
  function Count(s: seq<Id>, p: Pair): nat
  {
    CountIn(s, p, NumPairs(s))
  }

  predicate Occurs(s: seq<Id>, p: Pair)
  {
    exists i :: 0 <= i < NumPairs(s) && At(s, i) == p
  }

  /** The first position at or after `k` where `p` occurs. */
  function FirstFrom(s: seq<Id>, p: Pair, k: nat): (r: nat)
    requires exists i :: k <= i < NumPairs(s) && At(s, i) == p
    ensures k <= r < NumPairs(s) && At(s, r) == p
    ensures forall i :: k <= i < r ==> At(s, i) != p
    decreases NumPairs(s) - k
  {
    if At(s, k) == p then k
    else
      assert exists i :: k + 1 <= i < NumPairs(s) && At(s, i) == p;
      FirstFrom(s, p, k + 1)
  }

  /** The position of the first occurrence of `p`. */
  function FirstIndex(s: seq<Id>, p: Pair): (r: nat)
    requires Occurs(s, p)
    ensures r < NumPairs(s) && At(s, r) == p
    ensures forall i :: 0 <= i < r ==> At(s, i) != p
  {
    FirstFrom(s, p, 0)
  }

  /** The specification of `find_freq_pair`'s answer: `p` occurs, no pair
      occurs more often, and every other pair with as many occurrences
      first occurs later than `p`. */
  ghost predicate IsMostFrequent(s: seq<Id>, p: Pair)
  {
    && Occurs(s, p)
    && (forall q :: Occurs(s, q) ==> Count(s, q) <= Count(s, p))
    && (forall q :: Occurs(s, q) && q != p && Count(s, q) == Count(s, p) ==>
          FirstIndex(s, p) < FirstIndex(s, q))
  }

  /** A position among the first `k` whose pair has the largest count; the
      earliest such, since a later position replaces it only when strictly more frequent. */
  function BestIndex(s: seq<Id>, k: nat): (r: nat)
    requires 1 <= k <= NumPairs(s)
    ensures r < k
  {
    if k == 1 then 0
    else
      var b := BestIndex(s, k - 1);
      if Count(s, At(s, k - 1)) > Count(s, At(s, b)) then k - 1 else b
  }

  /** No position among the first `k` has a more frequent pair than the
      best one, and every position before it has a strictly less frequent one. */
  lemma {:induction false} BestIndexSpec(s: seq<Id>, k: nat)
    requires 1 <= k <= NumPairs(s)
    ensures var r := BestIndex(s, k);
      && (forall i :: 0 <= i < k ==> Count(s, At(s, i)) <= Count(s, At(s, r)))
      && (forall i :: 0 <= i < r ==> Count(s, At(s, i)) < Count(s, At(s, r)))
  {
    if k > 1 {
      BestIndexSpec(s, k - 1);
    }
  }

  /** Reference definition of `find_freq_pair`: none for fewer than two
      ids, otherwise the pair at the best position. */
  function FreqPair(s: seq<Id>): Option<Pair>
  {
    if |s| < 2 then None else Some(At(s, BestIndex(s, NumPairs(s))))
  }

  lemma {:induction false} CountInPositive(s: seq<Id>, p: Pair, k: nat)
    requires k <= NumPairs(s)
    ensures CountIn(s, p, k) > 0 <==> exists i :: 0 <= i < k && At(s, i) == p
  {
    if k > 0 {
      CountInPositive(s, p, k - 1);
    }
  }

  /** A pair occurs exactly when it is counted. */
  lemma OccursCounted(s: seq<Id>, p: Pair)
    ensures Occurs(s, p) <==> Count(s, p) > 0
  {
    CountInPositive(s, p, NumPairs(s));
  }

  /** A position where `p` sits and before which it was never counted is its first occurrence. */
  lemma FirstIndexAt(s: seq<Id>, p: Pair, f: nat)
    requires f < NumPairs(s) && At(s, f) == p && CountIn(s, p, f) == 0
    ensures Occurs(s, p) && FirstIndex(s, p) == f
  {
    CountInPositive(s, p, f);
  }

  /** The reference answer is none exactly for fewer than two ids, and is
      otherwise the most frequent pair under the first-occurrence tie-break. */
  lemma FreqPairSpec(s: seq<Id>)
    ensures FreqPair(s).None? <==> |s| < 2
    ensures FreqPair(s).Some? ==> IsMostFrequent(s, FreqPair(s).value)
  {
    if |s| >= 2 {
      var b := BestIndex(s, NumPairs(s));
      BestIndexSpec(s, NumPairs(s));
      var p := At(s, b);
      assert Occurs(s, p);
      forall q | Occurs(s, q) ensures Count(s, q) <= Count(s, p) {
        var f := FirstIndex(s, q);
      }
      forall q | Occurs(s, q) && q != p && Count(s, q) == Count(s, p)
        ensures FirstIndex(s, p) < FirstIndex(s, q)
      {
        var fq := FirstIndex(s, q);
        assert FirstIndex(s, p) <= b;
      }
    }
  }

  /** The specification leaves no choice: at most one pair is the most frequent. */
  lemma MostFrequentUnique(s: seq<Id>, p: Pair, q: Pair)
    requires IsMostFrequent(s, p) && IsMostFrequent(s, q)
    ensures p == q
  {
  }

  /** What the counting loop of `find_freq_pair` knows after the pairs at
      positions before `i`: `counts` holds exactly the pairs of `order`, with
      their counts so far; `order` lists them without repetition in the
      order they were first seen, at the increasing positions `first`. */
  ghost predicate Tallied(s: seq<Id>, i: nat, counts: map<Pair, nat>, order: seq<Pair>, first: seq<nat>)
  {
    && i <= NumPairs(s)
    && |first| == |order|
    && (forall q :: q in counts <==> q in order)
    && (forall j1, j2 :: 0 <= j1 < j2 < |order| ==> order[j1] != order[j2])
    && (forall j :: 0 <= j < |order| ==>
          first[j] < i && At(s, first[j]) == order[j] && CountIn(s, order[j], first[j]) == 0)
    && (forall j1, j2 :: 0 <= j1 < j2 < |order| ==> first[j1] < first[j2])
    && (forall q :: q in counts ==> counts[q] == CountIn(s, q, i) && counts[q] >= 1)
    && (forall q :: q !in counts ==> CountIn(s, q, i) == 0)
  }

  /** Counting a pair already seen adds one to its count. */
  lemma TallySeen(s: seq<Id>, i: nat, counts: map<Pair, nat>, order: seq<Pair>, first: seq<nat>)
    requires Tallied(s, i, counts, order, first) && i < NumPairs(s) && At(s, i) in counts
    ensures Tallied(s, i + 1, counts[At(s, i) := counts[At(s, i)] + 1], order, first)
  {
  }

  /** Counting a new pair gives it count one and appends it to the order. */
  lemma TallyNew(s: seq<Id>, i: nat, counts: map<Pair, nat>, order: seq<Pair>, first: seq<nat>)
    requires Tallied(s, i, counts, order, first) && i < NumPairs(s) && At(s, i) !in counts
    ensures Tallied(s, i + 1, counts[At(s, i) := 1], order + [At(s, i)], first + [i])
  {
  }

  /** `[1, 2, 1, 2, 3, 3]`: the pair `(1, 2)` occurs twice and wins. */
  lemma FreqPairExample()
    ensures FreqPair([1, 2, 1, 2, 3, 3]) == Some((1, 2))
  {
  }

  /** A tie: `(2, 2)` and `(1, 1)` both occur twice in `[2, 2, 2, 1, 1, 1]`,
      and `(2, 2)`, seen first, wins. */
  lemma FreqPairTieExample()
    ensures FreqPair([2, 2, 2, 1, 1, 1]) == Some((2, 2))
  {
  }
}
