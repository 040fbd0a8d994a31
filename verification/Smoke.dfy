/** The smoke detector (src/slidko/measure/smoke.py): edge-math checks over one capture. */
module Smoke {
  import opened Numbers
  import opened Results
  import opened Signals
  import opened Events
  import opened Captures

  const CHATTER_FRACTION := 0.25
  const CHATTER_MIN_EDGES := 3
  const RUNT_MAX_SAMPLES := 2
  const WS2812_T0H_NS := 400.0
  const WS2812_T1H_NS := 800.0
  const WS2812_WINDOW_NS := 150.0
  const INCOHERENCE_FRAME_ERR_RATE := 0.0

  datatype Evidence =
    | Chatter(instances: int, averageInterval: real, threshold: real)
    | Runt(pulseSamples: int)
    | Timing(bitIndex: int, highSamples: int, highNs: real)
    | Framing(errors: int, frames: int, rate: real)
    | Orphan(kind: Kind)

  /** A finding: its channel, its evidence window (inclusive), and the numbers behind it. */
  datatype Finding = Finding(channel: string, start: int, end: int, evidence: Evidence)

  // ---------------------------------------------------------------------------------------
  // Edge chatter
  // ---------------------------------------------------------------------------------------

  predicate Fast(interval: int, threshold: real) {
    interval as real < threshold
  }

  /** Where the run of fast intervals from `i` on ends. */
  function RunEnd(intervals: seq<int>, threshold: real, i: nat): (end: nat)
    requires i <= |intervals|
    ensures i <= end <= |intervals|
    ensures forall k :: i <= k < end ==> Fast(intervals[k], threshold)
    ensures end < |intervals| ==> !Fast(intervals[end], threshold)
    decreases |intervals| - i
  {
    if i < |intervals| && Fast(intervals[i], threshold) then RunEnd(intervals, threshold, i + 1) else i
  }

  /** A run of fast intervals: its first index and its length. */
  datatype Run = Run(first: nat, count: nat)

  /** The runs reported from interval `i` on. */
  function ChatterRuns(intervals: seq<int>, threshold: real, i: nat): seq<Run>
    requires i <= |intervals|
    decreases |intervals| - i
  {
    if i == |intervals| then []
    else if Fast(intervals[i], threshold) then
      var end := RunEnd(intervals, threshold, i);
      (if end - i >= CHATTER_MIN_EDGES then [Run(i, end - i)] else []) + ChatterRuns(intervals, threshold, end)
    else ChatterRuns(intervals, threshold, i + 1)
  }

  function SumInts(s: seq<int>): int {
    if s == [] then 0 else SumInts(s[..|s| - 1]) + s[|s| - 1]
  }

  function AverageInterval(burst: seq<int>): real
    requires burst != []
  {
    SumInts(burst) as real / |burst| as real
  }

  function ChatterFinding(edges: seq<Edge>, run: Run, threshold: real, channel: string): Finding
    requires 0 < run.count && run.first + run.count < |edges|
  {
    var burst := Intervals(edges)[run.first..run.first + run.count];
    Finding(channel, edges[run.first].index, edges[run.first + run.count].index,
            Chatter(run.count, AverageInterval(burst), threshold))
  }

  lemma {:induction false} ChatterRunsInRange(intervals: seq<int>, threshold: real, i: nat)
    requires i <= |intervals|
    ensures forall k :: 0 <= k < |ChatterRuns(intervals, threshold, i)| ==>
      var run := ChatterRuns(intervals, threshold, i)[k];
      i <= run.first && CHATTER_MIN_EDGES <= run.count && run.first + run.count <= |intervals|
    decreases |intervals| - i
  {
    if i < |intervals| {
      if Fast(intervals[i], threshold) {
        ChatterRunsInRange(intervals, threshold, RunEnd(intervals, threshold, i));
      } else {
        ChatterRunsInRange(intervals, threshold, i + 1);
      }
    }
  }

  function ChatterFindings(edges: seq<Edge>, runs: seq<Run>, threshold: real, channel: string): seq<Finding>
    requires forall k :: 0 <= k < |runs| ==> 0 < runs[k].count && runs[k].first + runs[k].count < |edges|
  {
    seq(|runs|, k requires 0 <= k < |runs| => ChatterFinding(edges, runs[k], threshold, channel))
  }

  /** What `detect_edge_chatter` promises. */
  function EdgeChatter(edges: seq<Edge>, bitPeriod: real, channel: string): seq<Finding> {
    if |edges| < 2 || bitPeriod <= 0.0 then []
    else
      var threshold := CHATTER_FRACTION * bitPeriod;
      ChatterRunsInRange(Intervals(edges), threshold, 0);
      ChatterFindings(edges, ChatterRuns(Intervals(edges), threshold, 0), threshold, channel)
  }

  method DetectEdgeChatter(edges: seq<Edge>, bitPeriod: real, channel: string) returns (findings: seq<Finding>)
    ensures findings == EdgeChatter(edges, bitPeriod, channel)
  {
    if |edges| < 2 || bitPeriod <= 0.0 {
      return [];
    }
    var threshold := CHATTER_FRACTION * bitPeriod;
    findings := ScanChatter(edges, Intervals(edges), threshold, channel);
    ChatterRunsInRange(Intervals(edges), threshold, 0);
  }

  /** The outer loop of `detect_edge_chatter`. */
  method ScanChatter(edges: seq<Edge>, intervals: seq<int>, threshold: real, channel: string)
    returns (findings: seq<Finding>)
    requires |edges| >= 2 && intervals == Intervals(edges)
    ensures InRange(ChatterRuns(intervals, threshold, 0), |edges|)
    ensures findings == ChatterFindings(edges, ChatterRuns(intervals, threshold, 0), threshold, channel)
  {
    hide ChatterRuns, ChatterFinding, RunEnd;
    ghost var done: seq<Run> := [];
    findings := [];
    var i := 0;
    while i < |intervals|
      invariant 0 <= i <= |intervals|
      invariant ChatterRuns(intervals, threshold, 0) == done + ChatterRuns(intervals, threshold, i)
      invariant InRange(done, |edges|)
      invariant findings == ChatterFindings(edges, done, threshold, channel)
      decreases |intervals| - i
    {
      if Fast(intervals[i], threshold) {
        var count := CountFast(intervals, threshold, i);
        SkipRun(intervals, threshold, i, count);
        if count >= CHATTER_MIN_EDGES {
          var run := Run(i, count);
          Reassociate(done, [run], ChatterRuns(intervals, threshold, i + count));
          AddFinding(edges, done, run, threshold, channel);
          findings := findings + [ChatterFinding(edges, run, threshold, channel)];
          done := done + [run];
        }
        i := i + count;
      } else {
        SkipSlow(intervals, threshold, i);
        i := i + 1;
      }
    }
    NoMoreRuns(intervals, threshold);
    assert done + [] == done;
  }

  lemma {:induction false} SkipSlow(intervals: seq<int>, threshold: real, i: nat)
    requires i < |intervals| && !Fast(intervals[i], threshold)
    ensures ChatterRuns(intervals, threshold, i) == ChatterRuns(intervals, threshold, i + 1)
  {
  }

  lemma {:induction false} NoMoreRuns(intervals: seq<int>, threshold: real)
    ensures ChatterRuns(intervals, threshold, |intervals|) == []
  {
  }

  lemma {:induction false} SkipRun(intervals: seq<int>, threshold: real, i: nat, count: nat)
    requires i < |intervals| && Fast(intervals[i], threshold) && i + count == RunEnd(intervals, threshold, i)
    ensures ChatterRuns(intervals, threshold, i)
         == if count >= CHATTER_MIN_EDGES then [Run(i, count)] + ChatterRuns(intervals, threshold, i + count)
            else ChatterRuns(intervals, threshold, i + count)
  {
    var rest := ChatterRuns(intervals, threshold, i + count);
    assert [] + rest == rest;
  }

  ghost predicate InRange(runs: seq<Run>, edges: nat) {
    forall k :: 0 <= k < |runs| ==> 0 < runs[k].count && runs[k].first + runs[k].count < edges
  }

  lemma {:induction false} AddFinding(edges: seq<Edge>, done: seq<Run>, run: Run, threshold: real, channel: string)
    requires InRange(done, |edges|) && InRange([run], |edges|)
    ensures InRange(done + [run], |edges|)
    ensures 0 < run.count && run.first + run.count < |edges|
    ensures ChatterFindings(edges, done + [run], threshold, channel)
         == ChatterFindings(edges, done, threshold, channel) + [ChatterFinding(edges, run, threshold, channel)]
  {
    assert [run][0] == run;
  }

  lemma {:induction false} Reassociate(a: seq<Run>, b: seq<Run>, c: seq<Run>)
    ensures a + (b + c) == a + b + c
  {
  }

  /** The inner loop of `detect_edge_chatter`. */
  method CountFast(intervals: seq<int>, threshold: real, i: nat) returns (count: nat)
    requires i < |intervals| && Fast(intervals[i], threshold)
    ensures count > 0 && i + count == RunEnd(intervals, threshold, i)
  {
    count := 1;
    while i + count < |intervals| && Fast(intervals[i + count], threshold)
      invariant i + count <= |intervals|
      invariant RunEnd(intervals, threshold, i + count) == RunEnd(intervals, threshold, i)
    {
      count := count + 1;
    }
  }

  // ---------------------------------------------------------------------------------------
  // Runt pulses
  // ---------------------------------------------------------------------------------------

  /** The runt findings among the first `n` intervals. */
  function RuntsUpTo(edges: seq<Edge>, n: nat, channel: string): seq<Finding>
    requires n == 0 || n < |edges|
  {
    if n == 0 then []
    else
      var interval := edges[n].index - edges[n - 1].index;
      RuntsUpTo(edges, n - 1, channel)
      + (if interval <= RUNT_MAX_SAMPLES
         then [Finding(channel, edges[n - 1].index, edges[n].index, Runt(interval))] else [])
  }

  /** What `detect_runt_pulses` promises. */
  function RuntPulses(edges: seq<Edge>, channel: string): seq<Finding> {
    if |edges| < 2 then [] else RuntsUpTo(edges, |edges| - 1, channel)
  }

  method DetectRuntPulses(edges: seq<Edge>, channel: string) returns (findings: seq<Finding>)
    ensures findings == RuntPulses(edges, channel)
  {
    if |edges| < 2 {
      return [];
    }
    findings := [];
    for i := 0 to |edges| - 1
      invariant findings == RuntsUpTo(edges, i, channel)
    {
      var interval := edges[i + 1].index - edges[i].index;
      if interval <= RUNT_MAX_SAMPLES {
        findings := findings + [Finding(channel, edges[i].index, edges[i + 1].index, Runt(interval))];
      }
    }
  }

  // ---------------------------------------------------------------------------------------
  // WS2812 timing
  // ---------------------------------------------------------------------------------------

  function SampleNs(sampleRate: real): real
    requires sampleRate > 0.0
  {
    1000000000.0 / sampleRate
  }

  /** The high time lies in the window around the given nominal time. */
  predicate InWindow(highSamples: int, nominalNs: real, sampleRate: real)
    requires sampleRate > 0.0
  {
    var ns := SampleNs(sampleRate);
    assert ns > 0.0;
    nominalNs / ns - WS2812_WINDOW_NS / ns <= highSamples as real <= nominalNs / ns + WS2812_WINDOW_NS / ns
  }

  predicate LegalHigh(highSamples: int, sampleRate: real)
    requires sampleRate > 0.0
  {
    InWindow(highSamples, WS2812_T0H_NS, sampleRate) || InWindow(highSamples, WS2812_T1H_NS, sampleRate)
  }

  function HighTime(edges: seq<Edge>, bitIndex: nat): int
    requires 2 * bitIndex + 1 < |edges|
  {
    edges[2 * bitIndex + 1].index - edges[2 * bitIndex].index
  }

  function TimingFinding(edges: seq<Edge>, bitIndex: nat, sampleRate: real, channel: string): Finding
    requires 2 * bitIndex + 1 < |edges| && sampleRate > 0.0
  {
    var highSamples := HighTime(edges, bitIndex);
    Finding(channel, edges[2 * bitIndex].index, edges[2 * bitIndex + 1].index,
            Timing(bitIndex, highSamples, highSamples as real * SampleNs(sampleRate)))
  }

  /** The timing findings among the first `n` edge pairs. */
  function ViolationsUpTo(edges: seq<Edge>, n: nat, sampleRate: real, channel: string): seq<Finding>
    requires 2 * n <= |edges| && sampleRate > 0.0
  {
    if n == 0 then []
    else
      ViolationsUpTo(edges, n - 1, sampleRate, channel)
      + (if LegalHigh(HighTime(edges, n - 1), sampleRate) then []
         else [TimingFinding(edges, n - 1, sampleRate, channel)])
  }

  /** What `detect_ws2812_timing` promises. */
  function Ws2812Timing(edges: seq<Edge>, sampleRate: real, channel: string): seq<Finding>
    requires sampleRate > 0.0
  {
    if |edges| < 2 then [] else ViolationsUpTo(edges, |edges| / 2, sampleRate, channel)
  }

  method DetectWs2812Timing(edges: seq<Edge>, sampleRate: real, channel: string) returns (findings: seq<Finding>)
    requires sampleRate > 0.0
    ensures findings == Ws2812Timing(edges, sampleRate, channel)
  {
    if |edges| < 2 {
      return [];
    }
    findings := [];
    for bitIndex := 0 to |edges| / 2
      invariant findings == ViolationsUpTo(edges, bitIndex, sampleRate, channel)
    {
      var highSamples := HighTime(edges, bitIndex);
      if LegalHigh(highSamples, sampleRate) {
        assert findings + [] == findings;
        continue;
      }
      findings := findings + [TimingFinding(edges, bitIndex, sampleRate, channel)];
    }
  }

  // ---------------------------------------------------------------------------------------
  // Protocol incoherence
  // ---------------------------------------------------------------------------------------

  function UartEvents(events: seq<Event>): seq<Event> {
    if events == [] then []
    else
      var last := events[|events| - 1];
      UartEvents(events[..|events| - 1]) + (if last.kind == UartByte then [last] else [])
  }

  function BadFrames(events: seq<Event>): seq<Event> {
    if events == [] then []
    else BadFrames(events[..|events| - 1]) + (if events[|events| - 1].framingError then [events[|events| - 1]] else [])
  }

  function FirstStart(events: seq<Event>): int
    requires events != []
  {
    if |events| == 1 then events[0].start else Min(FirstStart(events[..|events| - 1]), events[|events| - 1].start)
  }

  function LastEnd(events: seq<Event>): int
    requires events != []
  {
    if |events| == 1 then events[0].end else Max(LastEnd(events[..|events| - 1]), events[|events| - 1].end)
  }

  /** `_detect_uart_framing_incoherence`. */
  function FramingIncoherence(events: seq<Event>, channel: string): seq<Finding> {
    var frames := UartEvents(events);
    if frames == [] then []
    else
      var bad := BadFrames(frames);
      var rate := |bad| as real / |frames| as real;
      if rate <= INCOHERENCE_FRAME_ERR_RATE || bad == [] then []
      else [Finding(channel, FirstStart(bad), LastEnd(bad), Framing(|bad|, |frames|, rate))]
  }

  /** The bus state of the orphan automaton after these events. */
  predicate Addressed(events: seq<Event>) {
    if events == [] then false
    else
      match events[|events| - 1].kind
      case I2cStart => false
      case I2cAddress => true
      case I2cStop => false
      case _ => Addressed(events[..|events| - 1])
  }

  predicate NeedsAddress(kind: Kind) {
    kind == I2cAck || kind == I2cNak || kind == I2cData
  }

  /** What `_detect_i2c_orphan_incoherence` promises. */
  function Orphans(events: seq<Event>, channel: string): seq<Finding> {
    if events == [] then []
    else
      var front, e := events[..|events| - 1], events[|events| - 1];
      Orphans(front, channel)
      + (if NeedsAddress(e.kind) && !Addressed(front) then [Finding(channel, e.start, e.end, Orphan(e.kind))] else [])
  }

  method DetectOrphans(events: seq<Event>, channel: string) returns (findings: seq<Finding>)
    ensures findings == Orphans(events, channel)
  {
    findings := [];
    var addressed := false;
    for i := 0 to |events|
      invariant addressed == Addressed(events[..i])
      invariant findings == Orphans(events[..i], channel)
    {
      assert events[..i + 1][..i] == events[..i];
      var event := events[i];
      if event.kind == I2cStart {
        addressed := false;
      } else if event.kind == I2cAddress {
        addressed := true;
      } else if event.kind == I2cStop {
        addressed := false;
      } else if NeedsAddress(event.kind) && !addressed {
        findings := findings + [Finding(channel, event.start, event.end, Orphan(event.kind))];
      }
    }
    assert events[..|events|] == events;
  }

  // ---------------------------------------------------------------------------------------
  // Orchestration
  // ---------------------------------------------------------------------------------------

  datatype Protocol = UartProtocol | I2cProtocol | SpiProtocol | Ws2812Protocol | OtherProtocol

  datatype Assignment = Assignment(role: string, channel: string)

  datatype Hypothesis = Hypothesis(protocol: Protocol, baud: Option<int>, assignments: seq<Assignment>)

  datatype SmokeError = UnknownChannel(name: string)

  /** `channel_assignments.get(role)`. */
  function Assigned(assignments: seq<Assignment>, role: string): Option<string> {
    if assignments == [] then None
    else if assignments[0].role == role then Some(assignments[0].channel)
    else Assigned(assignments[1..], role)
  }

  function AssignedOrEmpty(hypothesis: Hypothesis, role: string): string {
    match Assigned(hypothesis.assignments, role)
    case Some(name) => name
    case None => ""
  }

  /** `detect_incoherence`. */
  function Incoherence(events: seq<Event>, hypothesis: Hypothesis): seq<Finding> {
    match hypothesis.protocol
    case UartProtocol => FramingIncoherence(events, AssignedOrEmpty(hypothesis, "rx"))
    case I2cProtocol => Orphans(events, AssignedOrEmpty(hypothesis, "sda"))
    case _ => []
  }

  function ClockRole(protocol: Protocol): Option<string> {
    match protocol
    case UartProtocol => Some("rx")
    case I2cProtocol => Some("scl")
    case SpiProtocol => Some("clk")
    case _ => None
  }

  /** `_chatter_eligible_channels`: the clock-like line, or every line of a one-wire protocol. */
  predicate ChatterEligible(hypothesis: Hypothesis, name: string) {
    match ClockRole(hypothesis.protocol)
    case Some(role) => Assigned(hypothesis.assignments, role) == Some(name) && name != ""
    case None => exists i :: 0 <= i < |hypothesis.assignments| && hypothesis.assignments[i].channel == name
  }

  /** `_channel_t_bit`: the known UART rate, else the period that `estimate` finds. */
  function ChannelBitPeriod(channel: Channel, sampleRate: int, hypothesis: Hypothesis,
                            estimate: seq<bool> -> real): real {
    if hypothesis.protocol == UartProtocol && Assigned(hypothesis.assignments, "rx") == Some(channel.name)
       && hypothesis.baud.Some? && hypothesis.baud.value != 0
    then sampleRate as real / hypothesis.baud.value as real
    else estimate(channel.signal)
  }

  function ChannelFindings(channel: Channel, sampleRate: int, hypothesis: Hypothesis,
                           estimate: seq<bool> -> real): seq<Finding> {
    RuntPulses(Edges(channel.signal), channel.name)
    + (if ChatterEligible(hypothesis, channel.name)
       then EdgeChatter(Edges(channel.signal), ChannelBitPeriod(channel, sampleRate, hypothesis, estimate),
                        channel.name)
       else [])
  }

  function AllChannelFindings(channels: seq<Channel>, sampleRate: int, hypothesis: Hypothesis,
                              estimate: seq<bool> -> real): seq<Finding> {
    if channels == [] then []
    else AllChannelFindings(channels[..|channels| - 1], sampleRate, hypothesis, estimate)
         + ChannelFindings(channels[|channels| - 1], sampleRate, hypothesis, estimate)
  }

  /** The timing findings of the assigned channels, in order; fails on the first missing one. */
  function TimingFindings(capture: Capture, assignments: seq<Assignment>): Result<seq<Finding>, SmokeError>
    requires capture.sampleRate > 0
  {
    if assignments == [] then Ok([])
    else
      var n := |assignments| - 1;
      match TimingFindings(capture, assignments[..n])
      case Err(e) => Err(e)
      case Ok(before) =>
        match SignalOf(capture.channels, assignments[n].channel)
        case None => Err(UnknownChannel(assignments[n].channel))
        case Some(signal) =>
          Ok(before + Ws2812Timing(Edges(signal), capture.sampleRate as real, assignments[n].channel))
  }

  /** What `run_smoke` promises. */
  function SmokeFindings(capture: Capture, hypothesis: Hypothesis, events: Option<seq<Event>>,
                         estimate: seq<bool> -> real)
    : Result<seq<Finding>, SmokeError>
    requires capture.sampleRate > 0
  {
    var edgeFindings := AllChannelFindings(capture.channels, capture.sampleRate, hypothesis, estimate);
    var timing := if hypothesis.protocol == Ws2812Protocol then TimingFindings(capture, hypothesis.assignments)
      else Ok([]);
    match timing
    case Err(e) => Err(e)
    case Ok(timingFindings) =>
      Ok(edgeFindings + timingFindings + (if events.Some? then Incoherence(events.value, hypothesis) else []))
  }

  method RunSmoke(capture: Capture, hypothesis: Hypothesis, events: Option<seq<Event>>, estimate: seq<bool> -> real)
    returns (r: Result<seq<Finding>, SmokeError>)
    requires capture.sampleRate > 0
    ensures r == SmokeFindings(capture, hypothesis, events, estimate)
  {
    var findings := CheckChannels(capture, hypothesis, estimate);
    if hypothesis.protocol == Ws2812Protocol {
      var timing := CheckTiming(capture, hypothesis.assignments);
      if timing.Err? {
        return Err(timing.error);
      }
      findings := findings + timing.value;
    } else {
      assert findings + [] == findings;
    }
    if events.Some? {
      if hypothesis.protocol == I2cProtocol {
        var orphans := DetectOrphans(events.value, AssignedOrEmpty(hypothesis, "sda"));
        findings := findings + orphans;
      } else {
        findings := findings + Incoherence(events.value, hypothesis);
      }
    } else {
      assert findings + [] == findings;
    }
    return Ok(findings);
  }

  /** The per-channel loop of `run_smoke`. */
  method CheckChannels(capture: Capture, hypothesis: Hypothesis, estimate: seq<bool> -> real)
    returns (findings: seq<Finding>)
    ensures findings == AllChannelFindings(capture.channels, capture.sampleRate, hypothesis, estimate)
  {
    findings := [];
    for i := 0 to |capture.channels|
      invariant findings == AllChannelFindings(capture.channels[..i], capture.sampleRate, hypothesis, estimate)
    {
      var channel := capture.channels[i];
      assert capture.channels[..i + 1][..i] == capture.channels[..i];
      var edges := ExtractEdges(channel.signal);
      var runts := DetectRuntPulses(edges, channel.name);
      var chatter := [];
      if ChatterEligible(hypothesis, channel.name) {
        chatter := DetectEdgeChatter(edges, ChannelBitPeriod(channel, capture.sampleRate, hypothesis, estimate),
                                     channel.name);
      }
      findings := findings + (runts + chatter);
    }
    assert capture.channels[..|capture.channels|] == capture.channels;
  }

  /** The WS2812 loop of `run_smoke`. */
  method CheckTiming(capture: Capture, assignments: seq<Assignment>) returns (r: Result<seq<Finding>, SmokeError>)
    requires capture.sampleRate > 0
    ensures r == TimingFindings(capture, assignments)
  {
    var findings := [];
    for i := 0 to |assignments|
      invariant TimingFindings(capture, assignments[..i]) == Ok(findings)
    {
      assert assignments[..i + 1][..i] == assignments[..i];
      var signal := SignalOf(capture.channels, assignments[i].channel);
      if signal.None? {
        TimingFailsFor(capture, assignments, i);
        return Err(UnknownChannel(assignments[i].channel));
      }
      var edges := ExtractEdges(signal.value);
      var more := DetectWs2812Timing(edges, capture.sampleRate as real, assignments[i].channel);
      findings := findings + more;
    }
    assert assignments[..|assignments|] == assignments;
    return Ok(findings);
  }

  lemma {:induction false} TimingFailsFor(capture: Capture, assignments: seq<Assignment>, i: nat)
    requires capture.sampleRate > 0 && i < |assignments|
    requires TimingFindings(capture, assignments[..i]).Ok?
    requires SignalOf(capture.channels, assignments[i].channel).None?
    ensures TimingFindings(capture, assignments) == Err(UnknownChannel(assignments[i].channel))
  {
    TimingFailsUpTo(capture, assignments, i, |assignments|);
    assert assignments[..|assignments|] == assignments;
  }

  lemma {:induction false} TimingFailsUpTo(capture: Capture, assignments: seq<Assignment>, i: nat, n: nat)
    requires capture.sampleRate > 0 && i < n <= |assignments|
    requires TimingFindings(capture, assignments[..i]).Ok?
    requires SignalOf(capture.channels, assignments[i].channel).None?
    ensures TimingFindings(capture, assignments[..n]) == Err(UnknownChannel(assignments[i].channel))
  {
    assert assignments[..n][..n - 1] == assignments[..n - 1];
    if n - 1 > i {
      TimingFailsUpTo(capture, assignments, i, n - 1);
    }
  }
}
