/** Runs and pulses of a signal: what the run-length list says about edges, and the pulse
    lengths that the fixed-timing recognizers read (src/slidko/measure/edges.py). */
module PulseLengths {
  import opened Numbers
  import opened Signals

  /** A time in nanoseconds as a rounded number of samples. */
  function Samples(ns: real, sampleRate: int): int
    requires sampleRate != 0
  {
    var sampleNs := 1000000000.0 / sampleRate as real;
    assert sampleNs != 0.0;
    Round(ns / sampleNs)
  }

  /** That is the time by the rate, rounded. */
  lemma SamplesExactly(ns: real, sampleRate: int)
    requires sampleRate != 0
    ensures Samples(ns, sampleRate) == Round(ns * sampleRate as real / 1000000000.0)
  {
    hide Round;
    RatioIs(ns, sampleRate as real, 1000000000.0 / sampleRate as real);
  }

  lemma RatioIs(ns: real, r: real, d: real)
    requires r != 0.0 && d == 1000000000.0 / r
    ensures d != 0.0 && ns / d == ns * r / 1000000000.0
  {
    Quotient(1000000000.0, r, d);
    Quotient(ns, d, ns / d);
    Chain(ns / d, d, r, ns, 1000000000.0);
    Divided(ns / d, ns * r);
  }

  lemma Divided(q: real, x: real)
    requires q * 1000000000.0 == x
    ensures q == x / 1000000000.0
  {
  }

  lemma Quotient(x: real, y: real, q: real)
    requires y != 0.0 && q == x / y
    ensures q * y == x
  {
  }

  lemma Chain(q: real, d: real, r: real, ns: real, giga: real)
    requires q * d == ns && d * r == giga
    ensures q * giga == ns * r
  {
    assert q * (d * r) == (q * d) * r;
  }

  // ---------------------------------------------------------------------------------------
  // Runs
  // ---------------------------------------------------------------------------------------

  /** The runs of a signal are delimited by its edges. */
  lemma {:induction false} RunsAre(c: seq<bool>, starts: seq<int>, end: int)
    requires InRange(starts, |c|)
    ensures |Runs(c, starts, end)| == |starts|
    ensures forall k :: 0 <= k < |starts| ==> Runs(c, starts, end)[k].level == c[starts[k]]
    ensures forall k, next :: 0 <= k < next < |starts| && next == k + 1 ==>
      Runs(c, starts, end)[k].count == starts[next] - starts[k]
    ensures starts != [] ==>
      Runs(c, starts, end)[|starts| - 1].count == end - starts[|starts| - 1]
  {
    if starts != [] {
      hide Runs;
      var n := |starts| - 1;
      RunsAre(c, starts[..n], starts[n]);
      RunsStep(c, starts, end);
      forall k | 0 <= k < n ensures Runs(c, starts, end)[k] == Runs(c, starts[..n], starts[n])[k] {
      }
    }
  }

  lemma {:induction false} RunsStep(c: seq<bool>, starts: seq<int>, end: int)
    requires starts != [] && InRange(starts, |c|)
    ensures var n := |starts| - 1;
      Runs(c, starts, end) == Runs(c, starts[..n], starts[n]) + [Segment(c[starts[n]], end - starts[n])]
  {
  }

  lemma {:induction false} OneRunPerEdge(c: seq<bool>)
    requires c != []
    ensures |ChannelToSegments(c)| == |Edges(c)| + 1
  {
    hide Edges, Runs;
    RunsAre(c, RunStarts(c), |c|);
  }

  /** Run levels alternate from the first sample's level on. */
  lemma {:induction false} RunLevels(c: seq<bool>, k: nat)
    requires c != [] && k < |ChannelToSegments(c)|
    ensures ChannelToSegments(c)[k].level == if k % 2 == 0 then c[0] else !c[0]
  {
    hide Edges, Runs;
    RunsAre(c, RunStarts(c), |c|);
    if k == 0 {
      FirstRun(c);
    } else {
      RunLevels(c, k - 1);
      LevelsAlternate(c, k);
      assert k % 2 == 0 <==> (k - 1) % 2 == 1;
    }
  }

  lemma {:induction false} FirstRun(c: seq<bool>)
    requires c != []
    ensures ChannelToSegments(c) != [] && ChannelToSegments(c)[0].level == c[0]
  {
    hide Edges, Runs;
    RunsAre(c, RunStarts(c), |c|);
  }

  lemma {:induction false} LevelsAlternate(c: seq<bool>, k: nat)
    requires c != [] && 0 < k < |ChannelToSegments(c)|
    ensures ChannelToSegments(c)[k].level != ChannelToSegments(c)[k - 1].level
  {
    SegmentsCoalesced(c);
  }

  lemma {:induction false} SegmentsCoalesced(c: seq<bool>)
    ensures Coalesced(ChannelToSegments(c))
  {
    ExpandEncode(c);
    EncodeExpand(ChannelToSegments(c));
    CoalesceIsCoalesced(ChannelToSegments(c));
  }

  lemma {:induction false} CoalesceIsCoalesced(segments: seq<Segment>)
    ensures Coalesced(Coalesce(segments))
  {
    if segments != [] {
      CoalesceIsCoalesced(segments[..|segments| - 1]);
      PushCoalesced(Coalesce(segments[..|segments| - 1]), segments[|segments| - 1]);
    }
  }

  lemma {:induction false} PushCoalesced(runs: seq<Segment>, s: Segment)
    requires Coalesced(runs)
    ensures Coalesced(Push(runs, s))
  {
  }

  lemma {:induction false} CoalesceSnoc(segments: seq<Segment>, s: Segment)
    ensures Coalesce(segments + [s]) == Push(Coalesce(segments), s)
  {
    assert (segments + [s])[..|segments|] == segments;
  }

  lemma {:induction false} FirstLevel(segments: seq<Segment>)
    requires segments != [] && segments[0].count > 0
    ensures Expand(segments) != [] && Expand(segments)[0] == segments[0].level
  {
  }

  // ---------------------------------------------------------------------------------------
  // High pulses
  // ---------------------------------------------------------------------------------------

  /** The lengths of the high segments. */
  function Highs(segments: seq<Segment>): seq<int> {
    if segments == [] then []
    else
      var last := segments[|segments| - 1];
      Highs(segments[..|segments| - 1]) + (if last.level then [last.count] else [])
  }

  /** Where the high samples from `start` on end. */
  function HighEnd(c: seq<bool>, start: nat): (end: nat)
    requires start <= |c|
    ensures start <= end <= |c|
    ensures forall i :: start <= i < end ==> c[i]
    ensures end < |c| ==> !c[end]
    decreases |c| - start
  {
    if start < |c| && c[start] then HighEnd(c, start + 1) else start
  }

  ghost predicate Within(edges: seq<Edge>, n: nat) {
    forall k :: 0 <= k < |edges| ==> 0 <= edges[k].index < n
  }

  /** The length of the high pulse behind every rising edge. */
  function LengthsBehind(c: seq<bool>, edges: seq<Edge>): seq<int>
    requires Within(edges, |c|)
  {
    if edges == [] then []
    else
      var last := edges[|edges| - 1];
      LengthsBehind(c, edges[..|edges| - 1])
      + (if last.rising then [HighEnd(c, last.index) - last.index] else [])
  }

  lemma {:induction false} EdgesWithin(c: seq<bool>)
    ensures Within(Edges(c), |c|)
  {
    EdgesExact(c);
    forall k | 0 <= k < |Edges(c)| ensures 0 <= Edges(c)[k].index < |c| {
      EdgeAt(c, Edges(c), k);
    }
  }

  /** What `high_pulse_durations_ns` promises, in samples. */
  function HighPulses(c: seq<bool>): seq<int> {
    EdgesWithin(c);
    LengthsBehind(c, Edges(c))
  }

  method MeasureHighPulses(c: seq<bool>) returns (lengths: seq<int>)
    ensures lengths == HighPulses(c)
  {
    var edges := ExtractEdges(c);
    EdgesWithin(c);
    lengths := [];
    for i := 0 to |edges|
      invariant lengths == LengthsBehind(c, edges[..i])
    {
      assert edges[..i + 1][..i] == edges[..i];
      if edges[i].rising {
        var end := ScanHigh(c, edges[i].index);
        lengths := lengths + [end - edges[i].index];
      }
    }
    assert edges[..|edges|] == edges;
  }

  /** The inner loop of `pulse_cells_ns`. */
  method ScanHigh(c: seq<bool>, start: nat) returns (end: nat)
    requires start <= |c|
    ensures end == HighEnd(c, start)
  {
    end := start;
    while end < |c| && c[end]
      invariant start <= end <= |c|
      invariant HighEnd(c, end) == HighEnd(c, start)
    {
      end := end + 1;
    }
  }

  /** The high pulses are the high runs that do not begin the signal. */
  lemma {:induction false} HighPulsesAreRuns(c: seq<bool>)
    requires c != []
    ensures ChannelToSegments(c) != []
    ensures HighPulses(c) == Highs(ChannelToSegments(c)[1..])
  {
    hide Edges, Runs, LengthsBehind, Highs;
    EdgesWithin(c);
    OneRunPerEdge(c);
    var edges, runs := Edges(c), ChannelToSegments(c);
    forall k | 0 <= k < |edges|
      ensures runs[k + 1].level == edges[k].rising
      ensures edges[k].rising ==> runs[k + 1].count == HighEnd(c, edges[k].index) - edges[k].index
    {
      RunBehindEdge(c, k);
    }
    HighsBehind(c, edges, runs, |edges|);
    assert edges[..|edges|] == edges && runs[1..|edges| + 1] == runs[1..];
  }

  lemma {:induction false} HighsBehind(c: seq<bool>, edges: seq<Edge>, runs: seq<Segment>, n: nat)
    requires Within(edges, |c|) && |runs| == |edges| + 1 && n <= |edges|
    requires forall k :: 0 <= k < |edges| ==> runs[k + 1].level == edges[k].rising
    requires forall k :: 0 <= k < |edges| ==>
      edges[k].rising ==> runs[k + 1].count == HighEnd(c, edges[k].index) - edges[k].index
    ensures LengthsBehind(c, edges[..n]) == Highs(runs[1..n + 1])
  {
    if n > 0 {
      HighsBehind(c, edges, runs, n - 1);
      assert edges[..n][..n - 1] == edges[..n - 1];
      assert runs[1..n + 1][..n - 1] == runs[1..n];
    }
  }

  /** The run that begins at an edge: its level and, when high, its length. */
  lemma {:induction false} RunBehindEdge(c: seq<bool>, k: nat)
    requires c != [] && k < |Edges(c)|
    ensures |ChannelToSegments(c)| == |Edges(c)| + 1
    ensures 0 <= Edges(c)[k].index < |c|
    ensures ChannelToSegments(c)[k + 1].level == Edges(c)[k].rising
    ensures Edges(c)[k].rising ==>
      ChannelToSegments(c)[k + 1].count == HighEnd(c, Edges(c)[k].index) - Edges(c)[k].index
  {
    hide Edges, Runs;
    RunsAre(c, RunStarts(c), |c|);
    EdgesExact(c);
    EdgeAt(c, Edges(c), k);
    assert RunStarts(c)[k + 1] == Edges(c)[k].index;
    if k + 1 < |Edges(c)| {
      assert RunStarts(c)[k + 2] == Edges(c)[k + 1].index;
      EdgesAlternate(c, k);
      HighUntilEdge(c, Edges(c), k);
    } else {
      HighUntilEnd(c, Edges(c), k);
    }
  }

  lemma {:induction false} HighUntilEdge(c: seq<bool>, edges: seq<Edge>, k: nat)
    requires AreEdges(c, edges) && k + 1 < |edges|
    requires 0 <= edges[k].index < edges[k + 1].index < |c|
    requires edges[k].rising != edges[k + 1].rising
    requires forall i :: edges[k].index <= i < edges[k + 1].index ==> c[i] == edges[k].rising
    ensures edges[k].rising ==> HighEnd(c, edges[k].index) == edges[k + 1].index
  {
    EdgeAt(c, edges, k + 1);
    assert edges[k].rising ==> !c[edges[k + 1].index];
  }

  lemma {:induction false} HighUntilEnd(c: seq<bool>, edges: seq<Edge>, k: nat)
    requires AreEdges(c, edges) && k + 1 == |edges| && 0 <= edges[k].index < |c|
    ensures edges[k].rising ==> HighEnd(c, edges[k].index) == |c|
  {
    EdgeAt(c, edges, k);
    if edges[k].rising {
      var end := HighEnd(c, edges[k].index);
      if end < |c| {
        assert IsEdge(c, end);
        var j := FindEdge(c, edges, end);
        assert false;
      }
    }
  }

  /** All segments nonempty and no two high ones adjacent. */
  ghost predicate Spaced(segments: seq<Segment>) {
    && (forall i :: 0 <= i < |segments| ==> segments[i].count > 0)
    && (forall i, j :: 0 <= i < j < |segments| && j == i + 1 ==> !segments[i].level || !segments[j].level)
  }

  /** Merging neighbouring lows leaves the high pulses alone. */
  lemma {:induction false} SpacedHighs(segments: seq<Segment>)
    requires Spaced(segments)
    ensures Highs(Coalesce(segments)) == Highs(segments)
    ensures segments != [] ==>
      && Coalesce(segments) != []
      && Coalesce(segments)[|Coalesce(segments)| - 1].level == segments[|segments| - 1].level
      && Coalesce(segments)[0].level == segments[0].level
  {
    if segments != [] {
      var n := |segments| - 1;
      SpacedHighs(segments[..n]);
      assert n > 0 ==> !segments[n - 1].level || !segments[n].level;
      PushHighs(Coalesce(segments[..n]), segments[n]);
    }
  }

  lemma {:induction false} PushHighs(runs: seq<Segment>, s: Segment)
    requires s.count > 0
    requires runs != [] ==> !runs[|runs| - 1].level || !s.level
    ensures Highs(Push(runs, s)) == Highs(runs) + (if s.level then [s.count] else [])
  {
    if runs != [] && runs[|runs| - 1].level == s.level {
      var merged := Push(runs, s);
      assert merged[..|merged| - 1] == runs[..|runs| - 1];
    } else {
      assert (runs + [s])[..|runs|] == runs;
    }
  }

  /** The pulses of a capture built from spaced segments, the first of them low. */
  lemma {:induction false} SpacedPulses(segments: seq<Segment>)
    requires Spaced(segments) && segments != [] && !segments[0].level
    ensures HighPulses(Expand(segments)) == Highs(segments)
  {
    hide Highs, Coalesce, HighPulses, Expand, ChannelToSegments;
    SpacedHighs(segments);
    EncodeExpand(segments);
    FirstLevel(segments);
    HighPulsesAreRuns(Expand(segments));
    HighsTail(Coalesce(segments));
  }

  lemma {:induction false} HighsTail(runs: seq<Segment>)
    requires runs != [] && !runs[0].level
    ensures Highs(runs[1..]) == Highs(runs)
  {
    if |runs| > 1 {
      var n := |runs| - 1;
      HighsTail(runs[..n]);
      assert runs[..n][1..] == runs[1..][..n - 1];
    } else {
      assert Highs(runs[..0]) == [];
    }
  }

  lemma {:induction false} HighsConcat(a: seq<Segment>, b: seq<Segment>)
    ensures Highs(a + b) == Highs(a) + Highs(b)
  {
    if b == [] {
      assert a + b == a;
    } else {
      var n := |b| - 1;
      assert (a + b)[..|a + b| - 1] == a + b[..n];
      HighsConcat(a, b[..n]);
    }
  }
}
