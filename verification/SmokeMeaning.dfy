/** What each smoke check (src/slidko/measure/smoke.py) reports, in the numbers of its
    specification, and how a run of the detector is put together from them. */
module SmokeMeaning {
  import opened Numbers
  import opened Results
  import opened Signals
  import opened Events
  import opened Captures
  import opened Smoke
  import SmokeTraceability

  // ---------------------------------------------------------------------------------------
  // Runts
  // ---------------------------------------------------------------------------------------

  /** The finding for edges `k` and `k + 1`, which are at most two samples apart. */
  ghost predicate IsRunt(edges: seq<Edge>, k: int, channel: string, f: Finding) {
    && 0 <= k < |edges| - 1
    && edges[k + 1].index - edges[k].index <= 2
    && f == Finding(channel, edges[k].index, edges[k + 1].index, Runt(edges[k + 1].index - edges[k].index))
  }

  ghost predicate StartsAscend(findings: seq<Finding>) {
    forall i, j :: 0 <= i < j < |findings| ==> findings[i].start < findings[j].start
  }

  lemma {:induction false} RuntsUpToAre(edges: seq<Edge>, n: nat, channel: string, f: Finding)
    requires n == 0 || n < |edges|
    ensures f in RuntsUpTo(edges, n, channel) <==> exists k :: k < n && IsRunt(edges, k, channel, f)
  {
    if n > 0 {
      RuntsUpToAre(edges, n - 1, channel, f);
      if k :| k < n && IsRunt(edges, k, channel, f) {
        assert k < n - 1 || k == n - 1;
      }
      if f in RuntsUpTo(edges, n, channel) && f !in RuntsUpTo(edges, n - 1, channel) {
        assert IsRunt(edges, n - 1, channel, f);
      }
    }
  }

  lemma {:induction false} RuntsAscend(edges: seq<Edge>, n: nat, channel: string)
    requires Increasing(edges) && (n == 0 || n < |edges|)
    ensures StartsAscend(RuntsUpTo(edges, n, channel))
    ensures forall i :: 0 <= i < |RuntsUpTo(edges, n, channel)| ==>
      n > 0 && RuntsUpTo(edges, n, channel)[i].start <= edges[n - 1].index
  {
    if n > 0 {
      RuntsAscend(edges, n - 1, channel);
    }
  }

  /** Exactly the edge pairs at most two samples apart are reported, once each and in order. */
  lemma {:induction false} RuntsExactly(edges: seq<Edge>, channel: string, f: Finding)
    ensures f in RuntPulses(edges, channel) <==> exists k :: IsRunt(edges, k, channel, f)
    ensures Increasing(edges) ==> StartsAscend(RuntPulses(edges, channel))
  {
    hide RuntsUpTo;
    if |edges| >= 2 {
      RuntsUpToAre(edges, |edges| - 1, channel, f);
      if Increasing(edges) {
        RuntsAscend(edges, |edges| - 1, channel);
      }
    }
  }

  // ---------------------------------------------------------------------------------------
  // Chatter
  // ---------------------------------------------------------------------------------------

  /** Edges `p` to `q` are a longest stretch of at least three intervals shorter than a quarter of
      the bit period; the finding counts them and gives their average. */
  ghost predicate IsBurst(edges: seq<Edge>, p: int, q: int, bitPeriod: real, channel: string, f: Finding) {
    && 0 <= p && p + 3 <= q < |edges|
    && (forall k :: p <= k < q ==> ShortGap(edges, k, bitPeriod))
    && (p > 0 ==> !ShortGap(edges, p - 1, bitPeriod))
    && (q + 1 < |edges| ==> !ShortGap(edges, q, bitPeriod))
    && f.channel == channel && f.start == edges[p].index && f.end == edges[q].index
    && f.evidence.Chatter?
    && f.evidence.instances == q - p
    && f.evidence.averageInterval * (q - p) as real == (edges[q].index - edges[p].index) as real
    && f.evidence.threshold == bitPeriod / 4.0
  }

  ghost predicate ShortGap(edges: seq<Edge>, k: int, bitPeriod: real)
    requires 0 <= k < |edges| - 1
  {
    4.0 * (edges[k + 1].index - edges[k].index) as real < bitPeriod
  }

  lemma {:induction false} SumSnoc(s: seq<int>, x: int)
    ensures SumInts(s + [x]) == SumInts(s) + x
    ensures SumInts([]) == 0
  {
    assert (s + [x])[..|s|] == s;
  }

  lemma {:induction false} SumTelescopes(edges: seq<Edge>, p: nat, q: nat)
    requires p < q < |edges|
    ensures q <= |Intervals(edges)| && SumInts(Intervals(edges)[p..q]) == edges[q].index - edges[p].index
  {
    hide Intervals, SumInts;
    IntervalAt(edges, q - 1);
    var burst, before := Intervals(edges)[p..q], Intervals(edges)[p..q - 1];
    assert burst == before + [edges[q].index - edges[q - 1].index];
    SumSnoc(before, edges[q].index - edges[q - 1].index);
    if p + 1 < q {
      SumTelescopes(edges, p, q - 1);
    } else {
      assert before == [];
    }
  }

  lemma FastIsShort(edges: seq<Edge>, k: nat, bitPeriod: real)
    requires k + 1 < |edges|
    ensures k < |Intervals(edges)| == |edges| - 1
    ensures Fast(Intervals(edges)[k], 0.25 * bitPeriod) <==> ShortGap(edges, k, bitPeriod)
  {
    IntervalAt(edges, k);
  }

  lemma {:induction false} MaximalIsBurst(edges: seq<Edge>, run: Run, bitPeriod: real, channel: string)
    requires |edges| >= 2
    ensures SmokeTraceability.IsMaximalRun(Intervals(edges), 0.25 * bitPeriod, run) <==>
      0 < run.count && run.first + run.count < |edges|
      && IsBurst(edges, run.first, run.first + run.count, bitPeriod, channel,
                 ChatterFinding(edges, run, 0.25 * bitPeriod, channel))
  {
    hide Intervals, Fast, ShortGap, ChatterFinding;
    var p, q := run.first, run.first + run.count;
    forall k: nat | k + 1 < |edges|
      ensures k < |Intervals(edges)| == |edges| - 1
      ensures Fast(Intervals(edges)[k], 0.25 * bitPeriod) <==> ShortGap(edges, k, bitPeriod)
    {
      FastIsShort(edges, k, bitPeriod);
    }
    FastIsShort(edges, 0, bitPeriod);
    if 0 < run.count && q < |edges| {
      FindingIs(edges, run, bitPeriod, channel);
    }
  }

  lemma {:induction false} FindingIs(edges: seq<Edge>, run: Run, bitPeriod: real, channel: string)
    requires 0 < run.count && run.first + run.count < |edges|
    ensures var p, q, f := run.first, run.first + run.count, ChatterFinding(edges, run, 0.25 * bitPeriod, channel);
      && f.channel == channel && f.start == edges[p].index && f.end == edges[q].index
      && f.evidence.Chatter?
      && f.evidence.instances == q - p
      && f.evidence.averageInterval * (q - p) as real == (edges[q].index - edges[p].index) as real
      && f.evidence.threshold == bitPeriod / 4.0
  {
    hide Intervals, SumInts, AverageInterval;
    SumTelescopes(edges, run.first, run.first + run.count);
    IntervalAt(edges, run.first);
    var burst := Intervals(edges)[run.first..run.first + run.count];
    AverageTimes(burst);
  }

  lemma AverageTimes(burst: seq<int>)
    requires burst != []
    ensures AverageInterval(burst) * |burst| as real == SumInts(burst) as real
  {
    hide SumInts;
  }

  lemma SameBurst(edges: seq<Edge>, p: int, q: int, bitPeriod: real, channel: string, f: Finding, g: Finding)
    requires IsBurst(edges, p, q, bitPeriod, channel, f) && IsBurst(edges, p, q, bitPeriod, channel, g)
    ensures f == g
  {
    var n := (q - p) as real;
    assert (f.evidence.averageInterval - g.evidence.averageInterval) * n == 0.0;
  }

  lemma {:induction false} ReportedIsBurst(edges: seq<Edge>, bitPeriod: real, channel: string, f: Finding)
    requires f in EdgeChatter(edges, bitPeriod, channel)
    ensures bitPeriod > 0.0 && exists p, q :: IsBurst(edges, p, q, bitPeriod, channel, f)
  {
    hide IsBurst, ChatterFinding, ChatterRuns, Intervals, SmokeTraceability.IsMaximalRun;
    var run := SmokeTraceability.ChatterIsRun(edges, bitPeriod, channel, f);
    assert CHATTER_FRACTION * bitPeriod == 0.25 * bitPeriod;
    MaximalIsBurst(edges, run, bitPeriod, channel);
  }

  lemma {:induction false} BurstIsReported(edges: seq<Edge>, p: int, q: int, bitPeriod: real, channel: string,
                                           f: Finding)
    requires bitPeriod > 0.0 && IsBurst(edges, p, q, bitPeriod, channel, f)
    ensures f in EdgeChatter(edges, bitPeriod, channel)
  {
    hide IsBurst, ChatterFinding, ChatterRuns, EdgeChatter, Intervals, SmokeTraceability.IsMaximalRun;
    BurstShape(edges, p, q, bitPeriod, channel, f);
    var run := Run(p, q - p);
    var g := ChatterFinding(edges, run, 0.25 * bitPeriod, channel);
    FindingIs(edges, run, bitPeriod, channel);
    BurstOf(edges, p, q, bitPeriod, channel, f, g);
    SameBurst(edges, p, q, bitPeriod, channel, f, g);
    MaximalIsBurst(edges, run, bitPeriod, channel);
    SmokeTraceability.ChatterIsMaximalRuns(Intervals(edges), 0.25 * bitPeriod, run);
    RunIsReported(edges, run, bitPeriod, channel);
  }

  lemma {:induction false} RunIsReported(edges: seq<Edge>, run: Run, bitPeriod: real, channel: string)
    requires bitPeriod > 0.0 && 0 < run.count && run.first + run.count < |edges|
    requires run in ChatterRuns(Intervals(edges), 0.25 * bitPeriod, 0)
    ensures ChatterFinding(edges, run, 0.25 * bitPeriod, channel) in EdgeChatter(edges, bitPeriod, channel)
  {
    hide ChatterFinding, ChatterRuns, Intervals;
    var runs := ChatterRuns(Intervals(edges), 0.25 * bitPeriod, 0);
    ChatterRunsInRange(Intervals(edges), 0.25 * bitPeriod, 0);
    var k :| 0 <= k < |runs| && runs[k] == run;
    assert EdgeChatter(edges, bitPeriod, channel)[k] == ChatterFinding(edges, run, 0.25 * bitPeriod, channel);
  }

  /** Exactly the longest bursts are reported, and none when there is no bit period. */
  lemma {:induction false} ChatterExactly(edges: seq<Edge>, bitPeriod: real, channel: string, f: Finding)
    ensures f in EdgeChatter(edges, bitPeriod, channel)
       <==> bitPeriod > 0.0 && exists p, q :: IsBurst(edges, p, q, bitPeriod, channel, f)
  {
    hide IsBurst, EdgeChatter;
    if f in EdgeChatter(edges, bitPeriod, channel) {
      ReportedIsBurst(edges, bitPeriod, channel, f);
    }
    if p, q :| bitPeriod > 0.0 && IsBurst(edges, p, q, bitPeriod, channel, f) {
      BurstIsReported(edges, p, q, bitPeriod, channel, f);
    }
  }

  lemma BurstShape(edges: seq<Edge>, p: int, q: int, bitPeriod: real, channel: string, f: Finding)
    requires IsBurst(edges, p, q, bitPeriod, channel, f)
    ensures 0 <= p && p + 3 <= q < |edges|
  {
  }

  lemma BurstOf(edges: seq<Edge>, p: int, q: int, bitPeriod: real, channel: string, f: Finding, g: Finding)
    requires IsBurst(edges, p, q, bitPeriod, channel, f)
    requires g.channel == channel && g.start == edges[p].index && g.end == edges[q].index && g.evidence.Chatter?
    requires g.evidence.instances == q - p
    requires g.evidence.averageInterval * (q - p) as real == (edges[q].index - edges[p].index) as real
    requires g.evidence.threshold == bitPeriod / 4.0
    ensures IsBurst(edges, p, q, bitPeriod, channel, g)
  {
    hide ShortGap;
  }

  // ---------------------------------------------------------------------------------------
  // WS2812 timing
  // ---------------------------------------------------------------------------------------

  /** How long so many samples last, in nanoseconds. */
  function Nanoseconds(samples: int, sampleRate: real): real
    requires sampleRate > 0.0
  {
    samples as real * 1000000000.0 / sampleRate
  }

  /** Within 150 ns of 400 ns or of 800 ns. */
  predicate LegalTime(ns: real) {
    250.0 <= ns <= 550.0 || 650.0 <= ns <= 950.0
  }

  lemma LegalExactly(highSamples: int, sampleRate: real)
    requires sampleRate > 0.0
    ensures LegalHigh(highSamples, sampleRate) <==> LegalTime(Nanoseconds(highSamples, sampleRate))
  {
    InWindowExactly(highSamples, 400.0, sampleRate);
    InWindowExactly(highSamples, 800.0, sampleRate);
  }

  lemma SampleTime(samples: int, sampleRate: real)
    requires sampleRate > 0.0
    ensures SampleNs(sampleRate) > 0.0 && SampleNs(sampleRate) * sampleRate == 1000000000.0
    ensures samples as real * SampleNs(sampleRate) == Nanoseconds(samples, sampleRate)
  {
    var ns, total := SampleNs(sampleRate), Nanoseconds(samples, sampleRate);
    assert ns * sampleRate == 1000000000.0;
    assert total * sampleRate == samples as real * 1000000000.0;
    assert (samples as real * ns) * sampleRate == total * sampleRate;
    SameProduct(samples as real * ns, total, sampleRate);
  }

  lemma SameProduct(x: real, y: real, c: real)
    requires c > 0.0 && x * c == y * c
    ensures x == y
  {
  }

  lemma ScaleAtMost(x: real, y: real, c: real)
    requires c > 0.0
    ensures x <= y <==> x * c <= y * c
  {
  }

  lemma InWindowExactly(highSamples: int, nominal: real, sampleRate: real)
    requires sampleRate > 0.0
    ensures InWindow(highSamples, nominal, sampleRate)
       <==> nominal - 150.0 <= Nanoseconds(highSamples, sampleRate) <= nominal + 150.0
  {
    var ns := SampleNs(sampleRate);
    SampleTime(highSamples, sampleRate);
    var mid, half, h := nominal / ns, 150.0 / ns, highSamples as real;
    assert mid * ns == nominal && half * ns == 150.0;
    ScaleAtMost(mid - half, h, ns);
    ScaleAtMost(h, mid + half, ns);
    assert (mid - half) * ns == nominal - 150.0 && (mid + half) * ns == nominal + 150.0;
  }

  /** The finding for bit `b`: its edge pair, and a high time outside both windows. */
  ghost predicate IsViolation(edges: seq<Edge>, b: int, sampleRate: real, channel: string, f: Finding)
    requires sampleRate > 0.0
  {
    && 0 <= b && 2 * b + 1 < |edges|
    && var high := edges[2 * b + 1].index - edges[2 * b].index;
    && !LegalTime(Nanoseconds(high, sampleRate))
    && f == Finding(channel, edges[2 * b].index, edges[2 * b + 1].index, Timing(b, high, Nanoseconds(high, sampleRate)))
  }

  lemma ViolationStep(edges: seq<Edge>, b: nat, sampleRate: real, channel: string, f: Finding)
    requires sampleRate > 0.0 && 2 * b + 1 < |edges|
    ensures IsViolation(edges, b, sampleRate, channel, f)
       <==> !LegalHigh(HighTime(edges, b), sampleRate) && f == TimingFinding(edges, b, sampleRate, channel)
  {
    hide LegalHigh, LegalTime, Nanoseconds, SampleNs;
    var high := HighTime(edges, b);
    LegalExactly(high, sampleRate);
    SampleTime(high, sampleRate);
    assert TimingFinding(edges, b, sampleRate, channel).evidence.highNs == high as real * SampleNs(sampleRate);
    assert TimingFinding(edges, b, sampleRate, channel)
        == Finding(channel, edges[2 * b].index, edges[2 * b + 1].index, Timing(b, high, Nanoseconds(high, sampleRate)));
  }

  lemma {:induction false} ViolationsAre(edges: seq<Edge>, n: nat, sampleRate: real, channel: string, f: Finding)
    requires 2 * n <= |edges| && sampleRate > 0.0
    ensures f in ViolationsUpTo(edges, n, sampleRate, channel)
        <==> exists b :: 0 <= b < n && IsViolation(edges, b, sampleRate, channel, f)
    ensures forall i, j :: 0 <= i < j < |ViolationsUpTo(edges, n, sampleRate, channel)| ==>
      var fs := ViolationsUpTo(edges, n, sampleRate, channel);
      fs[i].evidence.Timing? && fs[j].evidence.Timing? && fs[i].evidence.bitIndex < fs[j].evidence.bitIndex
    ensures forall i :: 0 <= i < |ViolationsUpTo(edges, n, sampleRate, channel)| ==>
      var fs := ViolationsUpTo(edges, n, sampleRate, channel);
      fs[i].evidence.Timing? && fs[i].evidence.bitIndex < n
  {
    hide LegalHigh, IsViolation, HighTime;
    if n > 0 {
      ViolationsAre(edges, n - 1, sampleRate, channel, f);
      ViolationStep(edges, n - 1, sampleRate, channel, f);
      if b :| 0 <= b < n && IsViolation(edges, b, sampleRate, channel, f) {
        assert b < n - 1 || b == n - 1;
      }
      if f in ViolationsUpTo(edges, n, sampleRate, channel) && f !in ViolationsUpTo(edges, n - 1, sampleRate, channel) {
        assert IsViolation(edges, n - 1, sampleRate, channel, f);
      }
    }
  }

  /** Exactly the edge pairs whose high time leaves both windows are reported, in bit order. */
  lemma {:induction false} ViolationsExactly(edges: seq<Edge>, sampleRate: real, channel: string, f: Finding)
    requires sampleRate > 0.0
    ensures f in Ws2812Timing(edges, sampleRate, channel) <==> exists b :: IsViolation(edges, b, sampleRate, channel, f)
    ensures forall i, j :: 0 <= i < j < |Ws2812Timing(edges, sampleRate, channel)| ==>
      var fs := Ws2812Timing(edges, sampleRate, channel);
      fs[i].evidence.Timing? && fs[j].evidence.Timing? && fs[i].evidence.bitIndex < fs[j].evidence.bitIndex
  {
    hide ViolationsUpTo, LegalTime, Nanoseconds;
    if |edges| >= 2 {
      ViolationsAre(edges, |edges| / 2, sampleRate, channel, f);
    }
  }

  // ---------------------------------------------------------------------------------------
  // Orphans
  // ---------------------------------------------------------------------------------------

  /** An address before event `i` with no start or stop in between. */
  ghost predicate AddressBefore(events: seq<Event>, i: int)
    requires 0 <= i <= |events|
  {
    exists j :: 0 <= j < i && events[j].kind == I2cAddress
      && forall k :: j < k < i ==> events[k].kind != I2cStart && events[k].kind != I2cStop
  }

  lemma {:induction false} AddressedExactly(events: seq<Event>)
    ensures Addressed(events) <==> AddressBefore(events, |events|)
  {
    if events != [] {
      var n := |events| - 1;
      AddressedExactly(events[..n]);
      if Addressed(events) && events[n].kind != I2cAddress {
        var j :| 0 <= j < n && events[..n][j].kind == I2cAddress
          && forall k :: j < k < n ==> events[..n][k].kind != I2cStart && events[..n][k].kind != I2cStop;
        assert events[j].kind == I2cAddress;
        assert forall k :: j < k < n ==> events[k] == events[..n][k];
      }
      if j :| 0 <= j < |events| && events[j].kind == I2cAddress &&
              (forall k :: j < k < |events| ==> events[k].kind != I2cStart && events[k].kind != I2cStop) {
        if j < n {
          assert events[n].kind != I2cStart && events[n].kind != I2cStop;
          assert events[..n][j].kind == I2cAddress;
          assert AddressBefore(events[..n], n);
        }
      }
    }
  }

  /** The finding for event `i`: an acknowledgement, a refusal or data that no device was addressed for. */
  ghost predicate IsOrphan(events: seq<Event>, i: int, channel: string, f: Finding) {
    && 0 <= i < |events|
    && events[i].kind in {I2cAck, I2cNak, I2cData}
    && !AddressBefore(events, i)
    && f == Finding(channel, events[i].start, events[i].end, Orphan(events[i].kind))
  }

  lemma AddressInFront(events: seq<Event>, i: int, n: int)
    requires 0 <= i <= n <= |events|
    ensures AddressBefore(events[..n], i) <==> AddressBefore(events, i)
  {
    if AddressBefore(events, i) {
      var j :| 0 <= j < i && events[j].kind == I2cAddress
        && forall k :: j < k < i ==> events[k].kind != I2cStart && events[k].kind != I2cStop;
      assert events[..n][j].kind == I2cAddress;
    }
  }

  /** Exactly those events are reported. */
  lemma {:induction false} OrphansExactly(events: seq<Event>, channel: string, f: Finding)
    ensures f in Orphans(events, channel) <==> exists i :: IsOrphan(events, i, channel, f)
  {
    hide AddressBefore;
    if events != [] {
      var n := |events| - 1;
      var front := events[..n];
      OrphansExactly(front, channel, f);
      AddressedExactly(front);
      AddressInFront(events, n, n);
      forall i | 0 <= i < n ensures IsOrphan(front, i, channel, f) <==> IsOrphan(events, i, channel, f) {
        AddressInFront(events, i, n);
      }
      if i :| IsOrphan(events, i, channel, f) {
        assert i < n ==> IsOrphan(front, i, channel, f);
      }
      if f in Orphans(events, channel) && f !in Orphans(front, channel) {
        assert IsOrphan(events, n, channel, f);
      }
    }
  }

  // ---------------------------------------------------------------------------------------
  // A run of the detector
  // ---------------------------------------------------------------------------------------

  function Flatten(parts: seq<seq<Finding>>): seq<Finding> {
    if parts == [] then [] else Flatten(parts[..|parts| - 1]) + parts[|parts| - 1]
  }

  /** The first assignment of a role. */
  ghost predicate AssignedTo(hypothesis: Hypothesis, role: string, name: string) {
    exists i :: FirstWith(hypothesis.assignments, role, i) && hypothesis.assignments[i].channel == name
  }

  ghost predicate FirstWith(assignments: seq<Assignment>, role: string, i: int) {
    && 0 <= i < |assignments| && assignments[i].role == role
    && forall k :: 0 <= k < i ==> assignments[k].role != role
  }

  lemma {:induction false} AssignedExactly(assignments: seq<Assignment>, role: string)
    ensures Assigned(assignments, role).None? <==> forall i :: 0 <= i < |assignments| ==> assignments[i].role != role
    ensures Assigned(assignments, role).Some? ==>
      exists i :: FirstWith(assignments, role, i) && assignments[i].channel == Assigned(assignments, role).value
  {
    if assignments != [] && assignments[0].role != role {
      var rest := assignments[1..];
      AssignedExactly(rest, role);
      forall i | 0 <= i < |rest| ensures rest[i] == assignments[i + 1] {
      }
      if Assigned(assignments, role).None? {
        forall i | 0 <= i < |assignments| ensures assignments[i].role != role {
          assert i > 0 ==> assignments[i] == rest[i - 1];
        }
      } else {
        var i :| FirstWith(rest, role, i) && rest[i].channel == Assigned(rest, role).value;
        assert FirstWith(assignments, role, i + 1);
      }
    } else if assignments != [] {
      assert FirstWith(assignments, role, 0);
    }
  }

  lemma {:induction false} AssignedToExactly(hypothesis: Hypothesis, role: string, name: string)
    ensures Assigned(hypothesis.assignments, role) == Some(name) <==> AssignedTo(hypothesis, role, name)
  {
    AssignedExactly(hypothesis.assignments, role);
  }

  /** The channels that are checked for chatter: the receive line, the clock, or, of any other
      protocol, every assigned channel. */
  ghost predicate Watched(hypothesis: Hypothesis, name: string) {
    match hypothesis.protocol
    case UartProtocol => AssignedTo(hypothesis, "rx", name) && name != ""
    case I2cProtocol => AssignedTo(hypothesis, "scl", name) && name != ""
    case SpiProtocol => AssignedTo(hypothesis, "clk", name) && name != ""
    case _ => exists i :: 0 <= i < |hypothesis.assignments| && hypothesis.assignments[i].channel == name
  }

  lemma WatchedExactly(hypothesis: Hypothesis, name: string)
    ensures ChatterEligible(hypothesis, name) <==> Watched(hypothesis, name)
  {
    hide Assigned, AssignedTo;
    AssignedToExactly(hypothesis, "rx", name);
    AssignedToExactly(hypothesis, "scl", name);
    AssignedToExactly(hypothesis, "clk", name);
  }

  /** The receive line has the period of its rate, if that is known; any other line the estimate. */
  ghost predicate PeriodOf(channel: Channel, sampleRate: int, hypothesis: Hypothesis, estimate: seq<bool> -> real,
                           t: real) {
    if hypothesis.protocol == UartProtocol && AssignedTo(hypothesis, "rx", channel.name)
       && hypothesis.baud.Some? && hypothesis.baud.value != 0
    then t * hypothesis.baud.value as real == sampleRate as real
    else t == estimate(channel.signal)
  }

  /** What one channel contributes: its runts, then its chatter. */
  ghost predicate ChannelPart(channel: Channel, sampleRate: int, hypothesis: Hypothesis, estimate: seq<bool> -> real,
                              part: seq<Finding>) {
    if Watched(hypothesis, channel.name) then
      exists t :: PeriodOf(channel, sampleRate, hypothesis, estimate, t)
        && part == RuntPulses(Edges(channel.signal), channel.name) + EdgeChatter(Edges(channel.signal), t, channel.name)
    else part == RuntPulses(Edges(channel.signal), channel.name)
  }

  lemma {:induction false} PartOfChannel(channel: Channel, sampleRate: int, hypothesis: Hypothesis,
                                         estimate: seq<bool> -> real)
    ensures ChannelPart(channel, sampleRate, hypothesis, estimate,
                        ChannelFindings(channel, sampleRate, hypothesis, estimate))
  {
    hide RuntPulses, EdgeChatter, Watched, ChatterEligible, AssignedTo, Assigned;
    WatchedExactly(hypothesis, channel.name);
    AssignedToExactly(hypothesis, "rx", channel.name);
    var runts := RuntPulses(Edges(channel.signal), channel.name);
    assert runts + [] == runts;
    var t := ChannelBitPeriod(channel, sampleRate, hypothesis, estimate);
    assert PeriodOf(channel, sampleRate, hypothesis, estimate, t);
  }

  /** One part for every channel, in the order of the capture. */
  ghost predicate ChannelParts(channels: seq<Channel>, sampleRate: int, hypothesis: Hypothesis,
                               estimate: seq<bool> -> real, parts: seq<seq<Finding>>) {
    && |parts| == |channels|
    && forall i :: 0 <= i < |channels| ==> ChannelPart(channels[i], sampleRate, hypothesis, estimate, parts[i])
  }

  lemma {:induction false} FlattenSnoc(parts: seq<seq<Finding>>, part: seq<Finding>)
    ensures Flatten(parts + [part]) == Flatten(parts) + part
  {
    assert (parts + [part])[..|parts|] == parts;
  }

  lemma {:induction false} PartsOfChannels(channels: seq<Channel>, sampleRate: int, hypothesis: Hypothesis,
                                           estimate: seq<bool> -> real) returns (parts: seq<seq<Finding>>)
    ensures ChannelParts(channels, sampleRate, hypothesis, estimate, parts)
    ensures AllChannelFindings(channels, sampleRate, hypothesis, estimate) == Flatten(parts)
  {
    hide ChannelFindings, ChannelPart;
    parts := [];
    if channels != [] {
      var n := |channels| - 1;
      var front := PartsOfChannels(channels[..n], sampleRate, hypothesis, estimate);
      var part := ChannelFindings(channels[n], sampleRate, hypothesis, estimate);
      PartOfChannel(channels[n], sampleRate, hypothesis, estimate);
      FlattenSnoc(front, part);
      parts := front + [part];
    }
  }

  /** The signal of the first channel with this name. */
  ghost predicate Named(channels: seq<Channel>, name: string, signal: seq<bool>) {
    exists i :: 0 <= i < |channels| && channels[i].name == name && channels[i].signal == signal
      && forall k :: 0 <= k < i ==> channels[k].name != name
  }

  ghost predicate Missing(channels: seq<Channel>, name: string) {
    forall i :: 0 <= i < |channels| ==> channels[i].name != name
  }

  lemma {:induction false} SignalExactly(channels: seq<Channel>, name: string)
    ensures SignalOf(channels, name).None? <==> Missing(channels, name)
    ensures SignalOf(channels, name).Some? ==> Named(channels, name, SignalOf(channels, name).value)
  {
    if channels != [] && channels[0].name != name {
      var rest := channels[1..];
      SignalExactly(rest, name);
      forall i | 0 <= i < |rest| ensures rest[i] == channels[i + 1] {
      }
      if SignalOf(rest, name).Some? {
        var i :| 0 <= i < |rest| && rest[i].name == name && rest[i].signal == SignalOf(rest, name).value
          && forall k :: 0 <= k < i ==> rest[k].name != name;
        forall k | 0 <= k < i + 1 ensures channels[k].name != name {
          assert k > 0 ==> channels[k] == rest[k - 1];
        }
        assert channels[i + 1].name == name;
      } else {
        forall i | 0 <= i < |channels| ensures channels[i].name != name {
          assert i > 0 ==> channels[i] == rest[i - 1];
        }
      }
    }
  }

  /** One part for every assignment: the timing findings of its channel. */
  ghost predicate TimingParts(capture: Capture, assignments: seq<Assignment>, parts: seq<seq<Finding>>)
    requires capture.sampleRate > 0
  {
    && |parts| == |assignments|
    && forall i :: 0 <= i < |assignments| ==> HasTiming(capture, assignments[i].channel, parts[i])
  }

  ghost predicate HasTiming(capture: Capture, name: string, part: seq<Finding>)
    requires capture.sampleRate > 0
  {
    exists signal :: TimingPart(capture, name, signal, part)
  }

  ghost predicate TimingPart(capture: Capture, name: string, signal: seq<bool>, part: seq<Finding>)
    requires capture.sampleRate > 0
  {
    Named(capture.channels, name, signal) && part == Ws2812Timing(Edges(signal), capture.sampleRate as real, name)
  }

  /** The first assignment without a channel. */
  ghost predicate FirstMissing(capture: Capture, assignments: seq<Assignment>, name: string) {
    exists i :: 0 <= i < |assignments| && assignments[i].channel == name && Missing(capture.channels, name)
      && forall k :: 0 <= k < i ==> !Missing(capture.channels, assignments[k].channel)
  }

  lemma {:induction false} TimingExactly(capture: Capture, assignments: seq<Assignment>)
    returns (parts: seq<seq<Finding>>)
    requires capture.sampleRate > 0
    ensures TimingFindings(capture, assignments).Ok? ==>
      TimingParts(capture, assignments, parts) && TimingFindings(capture, assignments).value == Flatten(parts)
    ensures TimingFindings(capture, assignments).Ok?
       <==> forall k :: 0 <= k < |assignments| ==> !Missing(capture.channels, assignments[k].channel)
    ensures TimingFindings(capture, assignments).Err? ==>
      FirstMissing(capture, assignments, TimingFindings(capture, assignments).error.name)
  {
    hide Ws2812Timing, SignalOf, Named, Missing, Edges;
    parts := [];
    if assignments != [] {
      var n := |assignments| - 1;
      var front := TimingExactly(capture, assignments[..n]);
      SignalExactly(capture.channels, assignments[n].channel);
      assert forall k :: 0 <= k < n ==> assignments[..n][k] == assignments[k];
      var signal := SignalOf(capture.channels, assignments[n].channel);
      if TimingFindings(capture, assignments[..n]).Ok? && signal.Some? {
        var part := Ws2812Timing(Edges(signal.value), capture.sampleRate as real, assignments[n].channel);
        assert TimingPart(capture, assignments[n].channel, signal.value, part);
        FlattenSnoc(front, part);
        parts := front + [part];
        PartsSnoc(capture, assignments, front, part, signal.value);
      }
    }
  }

  lemma PartsSnoc(capture: Capture, assignments: seq<Assignment>, front: seq<seq<Finding>>, part: seq<Finding>,
                  signal: seq<bool>)
    requires capture.sampleRate > 0 && assignments != []
        && TimingParts(capture, assignments[..|assignments| - 1], front)
    requires TimingPart(capture, assignments[|assignments| - 1].channel, signal, part)
    ensures TimingParts(capture, assignments, front + [part])
  {
    hide TimingPart;
    var n, parts := |assignments| - 1, front + [part];
    forall i | 0 <= i < |assignments| ensures HasTiming(capture, assignments[i].channel, parts[i]) {
      if i < n {
        assert HasTiming(capture, assignments[..n][i].channel, front[i]);
      }
    }
  }

  /** The incoherence that is looked for: bad frames on the receive line, orphans on the data line. */
  ghost predicate IncoherencePart(events: seq<Event>, hypothesis: Hypothesis, part: seq<Finding>) {
    match hypothesis.protocol
    case UartProtocol => exists name :: NameOf(hypothesis, "rx", name) && part == FramingIncoherence(events, name)
    case I2cProtocol => exists name :: NameOf(hypothesis, "sda", name) && part == Orphans(events, name)
    case _ => part == []
  }

  ghost predicate NameOf(hypothesis: Hypothesis, role: string, name: string) {
    if exists i :: 0 <= i < |hypothesis.assignments| && hypothesis.assignments[i].role == role
    then AssignedTo(hypothesis, role, name) else name == ""
  }

  lemma {:induction false} NameExactly(hypothesis: Hypothesis, role: string)
    ensures NameOf(hypothesis, role, AssignedOrEmpty(hypothesis, role))
  {
    AssignedExactly(hypothesis.assignments, role);
  }

  lemma {:induction false} IncoherenceExactly(events: seq<Event>, hypothesis: Hypothesis)
    ensures IncoherencePart(events, hypothesis, Incoherence(events, hypothesis))
  {
    hide NameOf, AssignedOrEmpty, FramingIncoherence, Orphans;
    NameExactly(hypothesis, "rx");
    NameExactly(hypothesis, "sda");
  }

  /** The whole run: the channels' parts in capture order, then for WS2812 the assignments' timing
      parts, then, given events, the incoherence; it fails exactly when a WS2812 assignment names
      a channel that the capture lacks, with the first such name. */
  ghost predicate IsRun(capture: Capture, hypothesis: Hypothesis, events: Option<seq<Event>>,
                        estimate: seq<bool> -> real,
                        channelParts: seq<seq<Finding>>, timingParts: seq<seq<Finding>>, last: seq<Finding>)
    requires capture.sampleRate > 0
  {
    && ChannelParts(capture.channels, capture.sampleRate, hypothesis, estimate, channelParts)
    && (if hypothesis.protocol == Ws2812Protocol then TimingParts(capture, hypothesis.assignments, timingParts)
        else timingParts == [])
    && (if events.Some? then IncoherencePart(events.value, hypothesis, last) else last == [])
  }

  ghost predicate SomeMissing(capture: Capture, assignments: seq<Assignment>) {
    exists k :: 0 <= k < |assignments| && Missing(capture.channels, assignments[k].channel)
  }

  lemma {:induction false} RunExactly(capture: Capture, hypothesis: Hypothesis, events: Option<seq<Event>>,
                                      estimate: seq<bool> -> real)
    returns (channelParts: seq<seq<Finding>>, timingParts: seq<seq<Finding>>, last: seq<Finding>)
    requires capture.sampleRate > 0
    ensures var r := SmokeFindings(capture, hypothesis, events, estimate);
      && (r.Ok? ==> IsRun(capture, hypothesis, events, estimate, channelParts, timingParts, last)
                    && r.value == Flatten(channelParts) + Flatten(timingParts) + last)
      && (r.Err? <==> hypothesis.protocol == Ws2812Protocol && SomeMissing(capture, hypothesis.assignments))
      && (r.Err? ==> FirstMissing(capture, hypothesis.assignments, r.error.name))
  {
    hide AllChannelFindings, TimingFindings, Incoherence, ChannelPart, IncoherencePart, Missing, FirstMissing,
      TimingPart;
    channelParts := PartsOfChannels(capture.channels, capture.sampleRate, hypothesis, estimate);
    var timing := TimingExactly(capture, hypothesis.assignments);
    timingParts := if hypothesis.protocol == Ws2812Protocol then timing else [];
    last := if events.Some? then Incoherence(events.value, hypothesis) else [];
    if events.Some? {
      IncoherenceExactly(events.value, hypothesis);
    }
  }
}
