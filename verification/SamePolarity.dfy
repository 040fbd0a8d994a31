/** Periods between edges of the same polarity (src/slidko/measure/edges.py). */
module SamePolarity {
  import opened Signals
  import opened Sorting

  /** `np.diff`. */
  function Differences(s: seq<int>): seq<int> {
    if |s| < 2 then []
    else
      var n := |s| - 1;
      Differences(s[..n]) + [s[n] - s[n - 1]]
  }

  /** The differences between edges of the same polarity, in no particular order. */
  ghost function Periods(edges: seq<Edge>): multiset<int> {
    multiset(Differences(IndicesOf(edges, true)) + Differences(IndicesOf(edges, false)))
  }

  /** `same_polarity_intervals`: the two lists of differences, joined and sorted. */
  function SamePolarityIntervals(edges: seq<Edge>): seq<int> {
    if |edges| < 2 then []
    else Sorted(Differences(IndicesOf(edges, true)) + Differences(IndicesOf(edges, false)))
  }

  /** The sums of neighbouring intervals. */
  function PairSums(intervals: seq<int>): seq<int> {
    if |intervals| < 2 then []
    else
      var n := |intervals| - 1;
      PairSums(intervals[..n]) + [intervals[n - 1] + intervals[n]]
  }

  ghost predicate Alternating(edges: seq<Edge>) {
    forall i, j :: 0 <= i < j < |edges| && j == i + 1 ==> edges[i].rising != edges[j].rising
  }

  lemma {:induction false} LastOf(edges: seq<Edge>, rising: bool)
    requires Alternating(edges) && edges != []
    ensures edges[|edges| - 1].rising == rising ==>
      IndicesOf(edges, rising) != []
      && IndicesOf(edges, rising)[|IndicesOf(edges, rising)| - 1] == edges[|edges| - 1].index
    ensures edges[|edges| - 1].rising != rising ==>
      if |edges| == 1 then IndicesOf(edges, rising) == []
      else IndicesOf(edges, rising) != []
           && IndicesOf(edges, rising)[|IndicesOf(edges, rising)| - 1] == edges[|edges| - 2].index
  {
    var n := |edges| - 1;
    var front := edges[..n];
    assert IndicesOf(front, rising) + [] == IndicesOf(front, rising);
    if n > 0 {
      assert edges[n - 1].rising != edges[n].rising;
      LastOf(front, rising);
    }
  }

  lemma {:induction false} DifferencesSnoc(s: seq<int>, x: int)
    ensures Differences(s + [x]) == if s == [] then [] else Differences(s) + [x - s[|s| - 1]]
  {
    assert (s + [x])[..|s|] == s;
  }

  /** One more edge adds one difference, to the edge before the last. */
  lemma {:induction false} OneMoreEdge(edges: seq<Edge>)
    requires Alternating(edges) && edges != []
    ensures var n := |edges| - 1;
      Periods(edges) == Periods(edges[..n])
        + (if n < 2 then multiset{} else multiset{edges[n].index - edges[n - 2].index})
  {
    hide Differences, Periods;
    var n := |edges| - 1;
    var before, rising := edges[..n], edges[n].rising;
    assert IndicesOf(before, !rising) + [] == IndicesOf(before, !rising);
    DifferencesSnoc(IndicesOf(before, rising), edges[n].index);
    var same, other := Differences(IndicesOf(before, rising)), Differences(IndicesOf(before, !rising));
    if n > 0 {
      assert edges[n - 1].rising != rising;
      LastOf(before, rising);
    }
    if n < 2 {
      assert Differences(IndicesOf(edges, rising)) == same by { TooFew(before, rising); }
    } else {
      var x := edges[n].index - edges[n - 2].index;
      assert Differences(IndicesOf(edges, rising)) == same + [x];
      JoinOne(same, other, x);
      JoinOne(other, same, x);
    }
    Split(edges, rising);
    Split(before, rising);
  }

  lemma TooFew(before: seq<Edge>, rising: bool)
    requires IndicesOf(before, rising) == []
    ensures Differences(IndicesOf(before, rising)) == []
  {
  }

  lemma JoinOne(a: seq<int>, b: seq<int>, x: int)
    ensures multiset(a + [x] + b) == multiset(a + b) + multiset{x}
    ensures multiset(a + (b + [x])) == multiset(a + b) + multiset{x}
  {
  }

  /** Which polarity is named first makes no difference to the elements. */
  lemma Split(edges: seq<Edge>, rising: bool)
    ensures Periods(edges) == multiset(Differences(IndicesOf(edges, rising)) + Differences(IndicesOf(edges, !rising)))
  {
    hide Differences, IndicesOf;
  }

  lemma {:induction false} PairSumsSnoc(s: seq<int>, x: int)
    ensures PairSums(s + [x]) == if s == [] then [] else PairSums(s) + [s[|s| - 1] + x]
  {
    assert (s + [x])[..|s|] == s;
  }

  lemma {:induction false} IntervalsSnoc(edges: seq<Edge>)
    requires |edges| >= 2
    ensures var n := |edges| - 1;
      Intervals(edges) == Intervals(edges[..n]) + [edges[n].index - edges[n - 1].index]
  {
    var n := |edges| - 1;
    var before, after := Intervals(edges[..n]), Intervals(edges);
    assert |after| == n && |before| == n - 1;
    forall i | 0 <= i < n - 1 ensures before[i] == after[i] {
      IntervalAt(edges, i);
      IntervalAt(edges[..n], i);
    }
  }

  lemma {:induction false} PairSumsStep(edges: seq<Edge>)
    requires edges != []
    ensures var n := |edges| - 1;
      PairSums(Intervals(edges))
      == PairSums(Intervals(edges[..n])) + (if n < 2 then [] else [edges[n].index - edges[n - 2].index])
  {
    hide PairSums, Intervals;
    var n := |edges| - 1;
    if n < 2 {
      FewEdges(edges);
      FewEdges(edges[..n]);
    } else {
      IntervalsSnoc(edges);
      IntervalAt(edges[..n], n - 2);
      PairSumsSnoc(Intervals(edges[..n]), edges[n].index - edges[n - 1].index);
    }
  }

  lemma {:induction false} DifferencesArePairSums(edges: seq<Edge>)
    requires Alternating(edges)
    ensures Periods(edges) == multiset(PairSums(Intervals(edges)))
  {
    hide Periods, PairSums, Intervals;
    if edges == [] {
      NoEdges();
    } else {
      DifferencesArePairSums(edges[..|edges| - 1]);
      OneMoreEdge(edges);
      PairSumsStep(edges);
    }
  }

  lemma NoEdges()
    ensures Periods([]) == multiset{}
    ensures PairSums(Intervals([])) == []
  {
  }

  /** On the edges of any signal the result lists, in order, exactly the sums of neighbouring
      intervals: every full period, whichever level it begins with. */
  lemma {:induction false} PeriodsExactly(c: seq<bool>)
    ensures NonDecreasing(SamePolarityIntervals(Edges(c)))
    ensures multiset(SamePolarityIntervals(Edges(c))) == multiset(PairSums(Intervals(Edges(c))))
  {
    hide Edges, Differences, IndicesOf, Sorted, Intervals, PairSums;
    var edges := Edges(c);
    forall i, j | 0 <= i < j < |edges| && j == i + 1 ensures edges[i].rising != edges[j].rising {
      EdgesAlternate(c, i);
    }
    DifferencesArePairSums(edges);
    SortedExact(Differences(IndicesOf(edges, true)) + Differences(IndicesOf(edges, false)));
    if |edges| < 2 {
      FewEdges(edges);
    }
  }

  lemma {:induction false} FewEdges(edges: seq<Edge>)
    requires |edges| <= 2
    ensures PairSums(Intervals(edges)) == []
  {
  }
}
