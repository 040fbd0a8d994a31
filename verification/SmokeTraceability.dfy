/** What the smoke findings mean, and whether each can be reproduced from its own evidence
    window, as tests/measure/test_run_smoke.py asks on samples. */
module SmokeTraceability {
  import opened Numbers
  import opened Signals
  import opened Events
  import opened Smoke

  // ---------------------------------------------------------------------------------------
  // Chatter: exactly the maximal runs
  // ---------------------------------------------------------------------------------------

  ghost predicate AllFast(intervals: seq<int>, threshold: real, from: nat, to: nat)
    requires to <= |intervals|
  {
    forall k :: from <= k < to ==> Fast(intervals[k], threshold)
  }

  /** A run of at least three fast intervals that no fast interval extends on either side. */
  ghost predicate IsMaximalRun(intervals: seq<int>, threshold: real, run: Run) {
    var end := run.first + run.count;
    && run.count >= CHATTER_MIN_EDGES
    && end <= |intervals|
    && AllFast(intervals, threshold, run.first, end)
    && (run.first > 0 ==> !Fast(intervals[run.first - 1], threshold))
    && (end < |intervals| ==> !Fast(intervals[end], threshold))
  }

  /** No run of fast intervals straddles `i`. */
  ghost predicate Boundary(intervals: seq<int>, threshold: real, i: nat)
    requires i <= |intervals|
  {
    i == 0 || i == |intervals| || !Fast(intervals[i - 1], threshold) || !Fast(intervals[i], threshold)
  }

  /** The reported bursts are exactly the maximal runs. */
  lemma {:induction false} ChatterIsMaximalRuns(intervals: seq<int>, threshold: real, run: Run)
    ensures run in ChatterRuns(intervals, threshold, 0) <==> IsMaximalRun(intervals, threshold, run)
  {
    RunsFrom(intervals, threshold, 0, run);
  }

  lemma {:induction false} RunsFrom(intervals: seq<int>, threshold: real, i: nat, run: Run)
    requires i <= |intervals| && Boundary(intervals, threshold, i)
    ensures run in ChatterRuns(intervals, threshold, i)
       <==> IsMaximalRun(intervals, threshold, run) && run.first >= i
    decreases |intervals| - i
  {
    hide RunEnd;
    if i < |intervals| {
      if Fast(intervals[i], threshold) {
        var end := RunEnd(intervals, threshold, i);
        RunsFrom(intervals, threshold, end, run);
        SkipRun(intervals, threshold, i, end - i);
        RunAt(intervals, threshold, i, end, run);
      } else {
        RunsFrom(intervals, threshold, i + 1, run);
        assert run.first == i ==> !IsMaximalRun(intervals, threshold, run);
      }
    }
  }

  /** The maximal runs that begin inside the run of fast intervals from `i` to `end`. */
  lemma {:induction false} RunAt(intervals: seq<int>, threshold: real, i: nat, end: nat, run: Run)
    requires i < end <= |intervals| && Boundary(intervals, threshold, i)
    requires AllFast(intervals, threshold, i, end)
    requires end < |intervals| ==> !Fast(intervals[end], threshold)
    ensures i <= run.first < end ==>
      (IsMaximalRun(intervals, threshold, run) <==> run == Run(i, end - i) && end - i >= CHATTER_MIN_EDGES)
  {
    assert Fast(intervals[i], threshold);
    assert i < run.first < end ==> Fast(intervals[run.first - 1], threshold);
    assert i <= run.first + run.count < end ==> Fast(intervals[run.first + run.count], threshold);
  }

  /** They are reported in order, and two runs never share or touch an interval. */
  lemma {:induction false} ChatterIsOrdered(intervals: seq<int>, threshold: real, i: nat)
    requires i <= |intervals|
    ensures forall j, k :: 0 <= j < k < |ChatterRuns(intervals, threshold, i)| ==>
      var runs := ChatterRuns(intervals, threshold, i);
      runs[j].first + runs[j].count < runs[k].first
    decreases |intervals| - i
  {
    if i < |intervals| {
      if Fast(intervals[i], threshold) {
        var end := RunEnd(intervals, threshold, i);
        SkipRun(intervals, threshold, i, end - i);
        ChatterIsOrdered(intervals, threshold, end);
        LaterRuns(intervals, threshold, end);
      } else {
        ChatterIsOrdered(intervals, threshold, i + 1);
      }
    }
  }

  lemma {:induction false} LaterRuns(intervals: seq<int>, threshold: real, end: nat)
    requires end <= |intervals| && (end < |intervals| ==> !Fast(intervals[end], threshold))
    ensures forall k :: 0 <= k < |ChatterRuns(intervals, threshold, end)| ==>
      end < ChatterRuns(intervals, threshold, end)[k].first
  {
    if end < |intervals| {
      ChatterRunsInRange(intervals, threshold, end + 1);
    }
  }

  // ---------------------------------------------------------------------------------------
  // Re-running a check on the evidence window
  // ---------------------------------------------------------------------------------------

  /** The samples from just before a finding to just behind it. */
  function EvidenceWindow(c: seq<bool>, finding: Finding): seq<bool>
    requires 0 <= finding.start <= finding.end < |c|
  {
    c[Max(0, finding.start - 1)..Min(|c|, finding.end + 2)]
  }

  /** A finding as seen from inside its window. */
  function Rebased(c: seq<bool>, finding: Finding): Finding {
    finding.(start := finding.start - Max(0, finding.start - 1), end := finding.end - Max(0, finding.start - 1))
  }

  /** `inside` are the edges from `p` on, renumbered. */
  ghost predicate Moved(inside: seq<Edge>, edges: seq<Edge>, p: nat, offset: int) {
    && p + |inside| <= |edges|
    && forall i :: 0 <= i < |inside| ==> inside[i].index == edges[p + i].index + offset
  }

  /** The edges inside the window of edges `p` to `q`: these, and one that follows directly. */
  lemma {:induction false} WindowOf(c: seq<bool>, finding: Finding, p: nat, q: nat)
    returns (edges: seq<Edge>, inside: seq<Edge>)
    requires p < q < |Edges(c)|
    requires finding.start == Edges(c)[p].index && finding.end == Edges(c)[q].index
    ensures 1 <= finding.start <= finding.end < |c|
    ensures edges == Edges(c) && inside == Edges(EvidenceWindow(c, finding))
    ensures Moved(inside, edges, p, 1 - finding.start)
    ensures |inside| == q + 1 - p || |inside| == q + 2 - p
    ensures |inside| == q + 2 - p <==> IsEdge(c, finding.end + 1)
    ensures |inside| == q + 2 - p <==> q + 1 < |edges| && edges[q + 1].index == edges[q].index + 1
  {
    edges := Edges(c);
    var to := NextEdge(c, q);
    EdgesInside(c, edges, finding, p, q, to);
    inside := Shift(edges[p..to], 1 - finding.start);
    ShiftMoves(edges, p, to, 1 - finding.start);
  }

  lemma {:induction false} EdgesInside(c: seq<bool>, edges: seq<Edge>, finding: Finding, p: nat, q: nat, to: nat)
    requires edges == Edges(c) && p < q < |edges| && q < to <= |edges|
    requires finding.start == edges[p].index && finding.end == edges[q].index
    requires to == q + 1 || to == q + 2
    requires to == q + 2 <==> q + 1 < |edges| && edges[q + 1].index == edges[q].index + 1
    ensures 1 <= finding.start <= finding.end < |c|
    ensures Edges(EvidenceWindow(c, finding)) == Shift(edges[p..to], 1 - finding.start)
  {
    assert 1 <= finding.start < finding.end < |c|
      && Inside(edges, finding.start - 1, Min(|c|, finding.end + 2), p, to) by {
      EdgesExact(c);
      InsideWindow(c, edges, p, q, to);
    }
    EdgesOfWindow(c, finding.start - 1, Min(|c|, finding.end + 2), p, to);
  }

  lemma {:induction false} ShiftMoves(edges: seq<Edge>, p: nat, to: nat, offset: int)
    requires p <= to <= |edges|
    ensures |Shift(edges[p..to], offset)| == to - p && Moved(Shift(edges[p..to], offset), edges, p, offset)
  {
  }

  lemma {:induction false} InsideWindow(c: seq<bool>, edges: seq<Edge>, p: nat, q: nat, to: nat)
    requires AreEdges(c, edges)
    requires p < q < |edges| && q < to <= |edges|
    requires to == q + 1 || to == q + 2
    requires to == q + 2 <==> q + 1 < |edges| && edges[q + 1].index == edges[q].index + 1
    ensures 1 <= edges[p].index < edges[q].index < |c|
    ensures Inside(edges, edges[p].index - 1, Min(|c|, edges[q].index + 2), p, to)
  {
    EdgeAt(c, edges, p);
    EdgeAt(c, edges, q);
    forall k | 0 <= k < |edges|
      ensures p <= k < to <==> edges[p].index - 1 < edges[k].index < Min(|c|, edges[q].index + 2)
    {
      EdgeAt(c, edges, k);
      if k > q + 1 {
        EdgeGap(edges, q, k);
      }
      if k > q && to == q + 1 {
        EdgeGap(edges, q + 1, k);
        EdgeGap(edges, q, q + 1);
      }
    }
  }

  lemma {:induction false} MovedIntervals(inside: seq<Edge>, edges: seq<Edge>, p: nat, offset: int)
    requires Moved(inside, edges, p, offset) && |inside| >= 2
    ensures |Intervals(inside)| == |inside| - 1 && |Intervals(edges)| == |edges| - 1
    ensures forall i :: 0 <= i < |inside| - 1 ==> Intervals(inside)[i] == Intervals(edges)[p + i]
  {
  }

  /** A chatter finding reproduces itself: re-run on its window, the check reports it again,
      with the same instances, average and threshold, and nothing else. */
  lemma {:induction false} ChatterReplays(c: seq<bool>, bitPeriod: real, channel: string, finding: Finding)
    requires finding in EdgeChatter(Edges(c), bitPeriod, channel)
    ensures 0 <= finding.start <= finding.end < |c|
    ensures EdgeChatter(Edges(EvidenceWindow(c, finding)), bitPeriod, channel) == [Rebased(c, finding)]
  {
    hide Edges, EdgeChatter, Moved, AllFast, Intervals, AverageInterval, EvidenceWindow;
    var run := ReplayableRun(c, bitPeriod, channel, finding);
    var edges, inside := WindowOf(c, finding, run.first, run.first + run.count);
    ReplayRun(edges, inside, run, bitPeriod, channel, finding);
  }

  lemma {:induction false} ReplayRun(edges: seq<Edge>, inside: seq<Edge>, run: Run, bitPeriod: real, channel: string,
                                     finding: Finding)
    requires bitPeriod > 0.0 && run.count >= CHATTER_MIN_EDGES && run.first + run.count < |edges|
    requires AllFast(Intervals(edges), CHATTER_FRACTION * bitPeriod, run.first, run.first + run.count)
    requires finding == ChatterFinding(edges, run, CHATTER_FRACTION * bitPeriod, channel)
    requires |inside| == run.count + 1 && Moved(inside, edges, run.first, 1 - finding.start)
    ensures EdgeChatter(inside, bitPeriod, channel)
         == [finding.(start := 1, end := finding.end + 1 - finding.start)]
  {
    hide EdgeChatter, Intervals, AverageInterval, AllFast, Moved;
    ChatterOfWindow(edges, inside, run, bitPeriod, channel, 1 - finding.start);
    FindingOfWindow(edges, inside, run, CHATTER_FRACTION * bitPeriod, channel, 1 - finding.start);
  }

  /** A chatter finding names a maximal run. */
  lemma {:induction false} ChatterIsRun(edges: seq<Edge>, bitPeriod: real, channel: string, finding: Finding)
    returns (run: Run)
    requires finding in EdgeChatter(edges, bitPeriod, channel)
    ensures bitPeriod > 0.0 && IsMaximalRun(Intervals(edges), CHATTER_FRACTION * bitPeriod, run)
    ensures run.first + run.count < |edges|
    ensures finding == ChatterFinding(edges, run, CHATTER_FRACTION * bitPeriod, channel)
  {
    var threshold := CHATTER_FRACTION * bitPeriod;
    var runs := ChatterRuns(Intervals(edges), threshold, 0);
    ChatterRunsInRange(Intervals(edges), threshold, 0);
    var k :| 0 <= k < |EdgeChatter(edges, bitPeriod, channel)| && EdgeChatter(edges, bitPeriod, channel)[k] == finding;
    run := runs[k];
    assert run in runs;
    ChatterIsMaximalRuns(Intervals(edges), threshold, run);
  }

  lemma {:induction false} ReplayableRun(c: seq<bool>, bitPeriod: real, channel: string, finding: Finding)
    returns (run: Run)
    requires finding in EdgeChatter(Edges(c), bitPeriod, channel)
    ensures bitPeriod > 0.0 && run.count >= CHATTER_MIN_EDGES && run.first + run.count < |Edges(c)|
    ensures AllFast(Intervals(Edges(c)), CHATTER_FRACTION * bitPeriod, run.first, run.first + run.count)
    ensures finding == ChatterFinding(Edges(c), run, CHATTER_FRACTION * bitPeriod, channel)
    ensures var q := run.first + run.count;
      q + 1 < |Edges(c)| ==> Edges(c)[q + 1].index != Edges(c)[q].index + 1
  {
    run := ChatterIsRun(Edges(c), bitPeriod, channel, finding);
    IntervalsPositive(c);
    NoFastNeighbour(Edges(c), CHATTER_FRACTION * bitPeriod, run);
  }

  /** The interval behind a maximal run is longer than one sample. */
  lemma {:induction false} NoFastNeighbour(edges: seq<Edge>, threshold: real, run: Run)
    requires IsMaximalRun(Intervals(edges), threshold, run)
    requires forall i :: 0 <= i < |Intervals(edges)| ==> Intervals(edges)[i] >= 1
    ensures run.first + run.count < |edges|
    ensures var q := run.first + run.count;
      q + 1 < |edges| ==> edges[q + 1].index != edges[q].index + 1
  {
    var intervals, q := Intervals(edges), run.first + run.count;
    assert Fast(intervals[run.first], threshold);
    if q + 1 < |edges| {
      assert !Fast(intervals[q], threshold);
    }
  }

  lemma {:induction false} ChatterOfWindow(edges: seq<Edge>, inside: seq<Edge>, run: Run, bitPeriod: real,
                                           channel: string, offset: int)
    requires bitPeriod > 0.0 && run.count >= CHATTER_MIN_EDGES && run.first + run.count < |edges|
    requires AllFast(Intervals(edges), CHATTER_FRACTION * bitPeriod, run.first, run.first + run.count)
    requires |inside| == run.count + 1 && Moved(inside, edges, run.first, offset)
    ensures EdgeChatter(inside, bitPeriod, channel)
         == [ChatterFinding(inside, Run(0, run.count), CHATTER_FRACTION * bitPeriod, channel)]
  {
    RunOfWindow(edges, inside, run, CHATTER_FRACTION * bitPeriod, offset);
    ChatterOfRun(inside, run.count, bitPeriod, channel);
  }

  lemma {:induction false} RunOfWindow(edges: seq<Edge>, inside: seq<Edge>, run: Run, threshold: real, offset: int)
    requires run.count >= CHATTER_MIN_EDGES && run.first + run.count < |edges|
    requires AllFast(Intervals(edges), threshold, run.first, run.first + run.count)
    requires |inside| == run.count + 1 && Moved(inside, edges, run.first, offset)
    ensures ChatterRuns(Intervals(inside), threshold, 0) == [Run(0, run.count)]
  {
    MovedIntervals(inside, edges, run.first, offset);
    FastInside(Intervals(inside), Intervals(edges), run, threshold);
    OneRun(Intervals(inside), threshold);
  }

  lemma {:induction false} FastInside(inside: seq<int>, intervals: seq<int>, run: Run, threshold: real)
    requires run.first + run.count <= |intervals| && AllFast(intervals, threshold, run.first, run.first + run.count)
    requires |inside| == run.count && forall i :: 0 <= i < |inside| ==> inside[i] == intervals[run.first + i]
    ensures AllFast(inside, threshold, 0, |inside|)
  {
  }

  lemma {:induction false} ChatterOfRun(edges: seq<Edge>, count: nat, bitPeriod: real, channel: string)
    requires bitPeriod > 0.0 && 0 < count < |edges|
    requires ChatterRuns(Intervals(edges), CHATTER_FRACTION * bitPeriod, 0) == [Run(0, count)]
    ensures EdgeChatter(edges, bitPeriod, channel)
         == [ChatterFinding(edges, Run(0, count), CHATTER_FRACTION * bitPeriod, channel)]
  {
  }

  lemma {:induction false} FindingOfWindow(edges: seq<Edge>, inside: seq<Edge>, run: Run, threshold: real,
                                           channel: string, offset: int)
    requires run.count > 0 && run.first + run.count < |edges|
    requires |inside| == run.count + 1 && Moved(inside, edges, run.first, offset)
    ensures var finding := ChatterFinding(edges, run, threshold, channel);
      ChatterFinding(inside, Run(0, run.count), threshold, channel)
      == finding.(start := finding.start + offset, end := finding.end + offset)
  {
    hide AverageInterval, Intervals, Moved;
    assert Intervals(inside)[0..run.count] == Intervals(edges)[run.first..run.first + run.count] by {
      MovedIntervals(inside, edges, run.first, offset);
      SameSlice(Intervals(inside), Intervals(edges), run);
    }
    MovedEnds(inside, edges, run.first, offset);
  }

  lemma {:induction false} MovedEnds(inside: seq<Edge>, edges: seq<Edge>, p: nat, offset: int)
    requires Moved(inside, edges, p, offset) && |inside| >= 1
    ensures var n := |inside| - 1;
      && inside[0].index == edges[p].index + offset
      && inside[n].index == edges[p + n].index + offset
  {
  }

  lemma {:induction false} SameSlice(inside: seq<int>, intervals: seq<int>, run: Run)
    requires |inside| == run.count && run.first + run.count <= |intervals|
    requires forall i :: 0 <= i < |inside| ==> inside[i] == intervals[run.first + i]
    ensures inside[0..run.count] == intervals[run.first..run.first + run.count]
  {
  }

  lemma {:induction false} OneRun(intervals: seq<int>, threshold: real)
    requires |intervals| >= CHATTER_MIN_EDGES && AllFast(intervals, threshold, 0, |intervals|)
    ensures ChatterRuns(intervals, threshold, 0) == [Run(0, |intervals|)]
  {
    assert Fast(intervals[0], threshold);
    var end := RunEnd(intervals, threshold, 0);
    assert end == |intervals|;
    SkipRun(intervals, threshold, 0, end);
  }

  // --- runts

  /** Each runt finding is the interval behind one edge. */
  lemma {:induction false} RuntIsInterval(edges: seq<Edge>, n: nat, channel: string, finding: Finding) returns (p: nat)
    requires (n == 0 || n < |edges|) && finding in RuntsUpTo(edges, n, channel)
    ensures p < n && edges[p + 1].index - edges[p].index <= RUNT_MAX_SAMPLES
    ensures finding == Finding(channel, edges[p].index, edges[p + 1].index, Runt(edges[p + 1].index - edges[p].index))
  {
    if finding in RuntsUpTo(edges, n - 1, channel) {
      p := RuntIsInterval(edges, n - 1, channel, finding);
    } else {
      p := n - 1;
    }
  }

  /** A runt finding reproduces itself, alone, exactly when the line does not change again one
      sample behind it; otherwise the window shows a second runt. */
  lemma {:induction false} RuntReplays(c: seq<bool>, channel: string, finding: Finding)
    requires finding in RuntPulses(Edges(c), channel)
    ensures 0 <= finding.start <= finding.end < |c|
    ensures RuntPulses(Edges(EvidenceWindow(c, finding)), channel) == [Rebased(c, finding)]
       <==> !IsEdge(c, finding.end + 1)
    ensures IsEdge(c, finding.end + 1) ==> |RuntPulses(Edges(EvidenceWindow(c, finding)), channel)| == 2
  {
    var p := RuntIsInterval(Edges(c), |Edges(c)| - 1, channel, finding);
    var edges, inside := WindowOf(c, finding, p, p + 1);
    RuntsOfTwoOrThree(edges, inside, p, finding);
  }

  /** Where the edges of a window end: behind edge `q`, or one later when the next is adjacent. */
  lemma {:induction false} NextEdge(c: seq<bool>, q: nat) returns (to: nat)
    requires q < |Edges(c)|
    ensures q < to <= |Edges(c)| && (to == q + 1 || to == q + 2)
    ensures to == q + 2 <==> q + 1 < |Edges(c)| && Edges(c)[q + 1].index == Edges(c)[q].index + 1
    ensures to == q + 2 <==> IsEdge(c, Edges(c)[q].index + 1)
  {
    EdgesExact(c);
    to := NextOf(c, Edges(c), q);
  }

  lemma {:induction false} NextOf(c: seq<bool>, edges: seq<Edge>, q: nat) returns (to: nat)
    requires AreEdges(c, edges) && q < |edges|
    ensures q < to <= |edges| && (to == q + 1 || to == q + 2)
    ensures to == q + 2 <==> q + 1 < |edges| && edges[q + 1].index == edges[q].index + 1
    ensures to == q + 2 <==> IsEdge(c, edges[q].index + 1)
  {
    to := if q + 1 < |edges| && edges[q + 1].index == edges[q].index + 1 then q + 2 else q + 1;
    if to == q + 2 {
      EdgeAt(c, edges, q + 1);
    } else if IsEdge(c, edges[q].index + 1) {
      var k := FindEdge(c, edges, edges[q].index + 1);
      if k > q {
        EdgeGap(edges, q + 1, k);
      }
    }
  }

  lemma {:induction false} RuntsOfTwoOrThree(edges: seq<Edge>, inside: seq<Edge>, p: nat, finding: Finding)
    requires p + 1 < |edges| && finding.evidence == Runt(edges[p + 1].index - edges[p].index)
    requires finding.start == edges[p].index && finding.end == edges[p + 1].index
    requires finding.evidence.pulseSamples <= RUNT_MAX_SAMPLES
    requires 2 <= |inside| <= 3 && Moved(inside, edges, p, 1 - finding.start)
    requires |inside| == 3 ==> edges[p + 2].index == edges[p + 1].index + 1
    ensures |RuntPulses(inside, finding.channel)| == |inside| - 1
    ensures RuntPulses(inside, finding.channel)[0] == finding.(start := 1, end := finding.end + 1 - finding.start)
  {
    var first := Finding(finding.channel, inside[0].index, inside[1].index, Runt(inside[1].index - inside[0].index));
    assert RuntsUpTo(inside, 0, finding.channel) == [];
    assert RuntsUpTo(inside, 1, finding.channel) == [first];
    if |inside| == 3 {
      assert RuntsUpTo(inside, 2, finding.channel)
          == RuntsUpTo(inside, 1, finding.channel)
            + [Finding(finding.channel, inside[1].index, inside[2].index, Runt(1))];
    }
  }

  /** A one-sample pulse in a toggling line is not reproduced alone. */
  lemma {:induction false} RuntReplayCanFail(channel: string)
    ensures exists c: seq<bool>, finding ::
      && finding in RuntPulses(Edges(c), channel)
      && 0 <= finding.start <= finding.end < |c|
      && RuntPulses(Edges(EvidenceWindow(c, finding)), channel) != [Rebased(c, finding)]
  {
    var c := [false, true, false, true];
    EdgesExact(c);
    assert IsEdge(c, 1) && IsEdge(c, 2) && IsEdge(c, 3);
    IncreasingUnique(Edges(c), [Edge(1, true), Edge(2, false), Edge(3, true)]);
    var finding := Finding(channel, 1, 2, Runt(1));
    FirstOfThree(Edges(c), channel);
    assert finding == RuntPulses(Edges(c), channel)[0];
    RuntReplays(c, channel, finding);
  }

  lemma {:induction false} FirstOfThree(edges: seq<Edge>, channel: string)
    requires edges == [Edge(1, true), Edge(2, false), Edge(3, true)]
    ensures |RuntPulses(edges, channel)| == 2
    ensures RuntPulses(edges, channel)[0] == Finding(channel, 1, 2, Runt(1))
  {
    RuntsOfTwoOrThree(edges, edges, 0, Finding(channel, 1, 2, Runt(1)));
  }

  // --- WS2812 timing

  /** A timing finding names the pulse behind an even edge. */
  lemma {:induction false} TimingIsPulse(edges: seq<Edge>, n: nat, sampleRate: real, channel: string, finding: Finding)
    returns (b: nat)
    requires 2 * n <= |edges| && sampleRate > 0.0 && finding in ViolationsUpTo(edges, n, sampleRate, channel)
    ensures b < n && !LegalHigh(HighTime(edges, b), sampleRate)
    ensures finding == TimingFinding(edges, b, sampleRate, channel)
  {
    if finding in ViolationsUpTo(edges, n - 1, sampleRate, channel) {
      b := TimingIsPulse(edges, n - 1, sampleRate, channel, finding);
    } else {
      b := n - 1;
    }
  }

  /** A timing finding always reproduces itself, alone, as bit 0 of its window. */
  lemma {:induction false} TimingReplays(c: seq<bool>, sampleRate: real, channel: string, finding: Finding)
    requires sampleRate > 0.0 && finding in Ws2812Timing(Edges(c), sampleRate, channel)
    ensures 0 <= finding.start <= finding.end < |c| && finding.evidence.Timing?
    ensures Ws2812Timing(Edges(EvidenceWindow(c, finding)), sampleRate, channel)
         == [Rebased(c, finding).(evidence := finding.evidence.(bitIndex := 0))]
  {
    hide Edges;
    var b := TimingIsPulse(Edges(c), |Edges(c)| / 2, sampleRate, channel, finding);
    var edges, inside := WindowOf(c, finding, 2 * b, 2 * b + 1);
    FirstPulse(edges, inside, b, sampleRate, channel, finding);
  }

  lemma {:induction false} FirstPulse(edges: seq<Edge>, inside: seq<Edge>, b: nat, sampleRate: real, channel: string,
                                      finding: Finding)
    requires sampleRate > 0.0 && 2 * b + 1 < |edges| && !LegalHigh(HighTime(edges, b), sampleRate)
    requires finding == TimingFinding(edges, b, sampleRate, channel)
    requires 2 <= |inside| <= 3 && Moved(inside, edges, 2 * b, 1 - finding.start)
    ensures Ws2812Timing(inside, sampleRate, channel)
         == [finding.(start := 1, end := finding.end + 1 - finding.start, evidence := finding.evidence.(bitIndex := 0))]
  {
    assert |inside| / 2 == 1 && HighTime(inside, 0) == HighTime(edges, b);
    assert ViolationsUpTo(inside, 0, sampleRate, channel) == [];
    var again := TimingFinding(inside, 0, sampleRate, channel);
    assert ViolationsUpTo(inside, 1, sampleRate, channel) == [again];
    assert again.evidence == finding.evidence.(bitIndex := 0);
    assert again.start == 1 && again.end == finding.end + 1 - finding.start;
  }

  // --- framing incoherence

  function Within(events: seq<Event>, start: int, end: int): seq<Event> {
    if events == [] then []
    else
      var e := events[|events| - 1];
      Within(events[..|events| - 1], start, end) + (if start <= e.start && e.end <= end then [e] else [])
  }

  lemma {:induction false} BadFramesSnoc(events: seq<Event>, e: Event)
    ensures BadFrames(UartEvents(events + [e]))
         == BadFrames(UartEvents(events)) + (if e.kind == UartByte && e.framingError then [e] else [])
  {
    assert (events + [e])[..|events|] == events;
    var frames := UartEvents(events);
    if e.kind == UartByte {
      assert UartEvents(events + [e]) == frames + [e];
      assert (frames + [e])[..|frames|] == frames;
    } else {
      assert UartEvents(events + [e]) == frames;
    }
  }

  ghost predicate AllWithin(events: seq<Event>, start: int, end: int) {
    forall i :: 0 <= i < |events| ==> start <= events[i].start && events[i].end <= end
  }

  lemma {:induction false} WindowKeepsBadFrames(events: seq<Event>, start: int, end: int)
    requires AllWithin(BadFrames(UartEvents(events)), start, end)
    ensures BadFrames(UartEvents(Within(events, start, end))) == BadFrames(UartEvents(events))
  {
    if events != [] {
      var front, e := events[..|events| - 1], events[|events| - 1];
      assert events == front + [e];
      BadFramesSnoc(front, e);
      var bad, frontBad := BadFrames(UartEvents(events)), BadFrames(UartEvents(front));
      assert forall i :: 0 <= i < |frontBad| ==> bad[i] == frontBad[i];
      WindowKeepsBadFrames(front, start, end);
      BadFramesSnoc(Within(front, start, end), e);
      assert e.kind == UartByte && e.framingError ==> bad[|bad| - 1] == e;
      assert Within(front, start, end) + [] == Within(front, start, end);
    }
  }

  lemma {:induction false} BoundsOf(events: seq<Event>)
    requires events != []
    ensures AllWithin(events, FirstStart(events), LastEnd(events))
  {
    if |events| > 1 {
      BoundsOf(events[..|events| - 1]);
    }
  }

  lemma {:induction false} BadFramesAreFrames(events: seq<Event>)
    ensures BadFrames(events) != [] ==> events != []
  {
  }

  lemma FractionIsPositive(k: nat, n: nat)
    requires n > 0
    ensures k as real / n as real > 0.0 <==> k > 0
  {
  }

  /** Incoherence is reported exactly when some frame is bad; the finding spans the bad frames. */
  lemma {:induction false} FramingExactly(events: seq<Event>, channel: string)
    ensures var bad, frames := BadFrames(UartEvents(events)), UartEvents(events);
      if bad == [] then FramingIncoherence(events, channel) == []
      else frames != [] && FramingIncoherence(events, channel)
           == [Finding(channel, FirstStart(bad), LastEnd(bad),
                       Framing(|bad|, |frames|, |bad| as real / |frames| as real))]
  {
    BadFramesAreFrames(UartEvents(events));
    if UartEvents(events) != [] {
      FractionIsPositive(|BadFrames(UartEvents(events))|, |UartEvents(events)|);
    }
  }

  /** Framing incoherence reproduces itself on the events inside its window: one finding with
      the same window and the same error count. */
  lemma {:induction false} FramingReplays(events: seq<Event>, channel: string, finding: Finding)
    requires finding in FramingIncoherence(events, channel)
    ensures finding.evidence.Framing?
    ensures var again := FramingIncoherence(Within(events, finding.start, finding.end), channel);
      && |again| == 1 && again[0].evidence.Framing?
      && again[0].evidence.errors == finding.evidence.errors
      && again[0].channel == finding.channel && again[0].start == finding.start && again[0].end == finding.end
  {
    var bad := BadFrames(UartEvents(events));
    FramingExactly(events, channel);
    BoundsOf(bad);
    WindowKeepsBadFrames(events, finding.start, finding.end);
    FramingExactly(Within(events, finding.start, finding.end), channel);
  }
}
