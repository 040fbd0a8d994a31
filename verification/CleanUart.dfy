/** A clean UART capture is silent end to end: generator, decoder and smoke detector together. */
module CleanUart {
  import opened Numbers
  import opened Results
  import opened Signals
  import opened Uart
  import opened UartRoundTrip
  import opened Events
  import opened Captures
  import opened Smoke
  import AutoBaud
  import SmokeTraceability

  ghost predicate AllAtLeast(intervals: seq<int>, least: int) {
    forall i :: 0 <= i < |intervals| ==> intervals[i] >= least
  }

  ghost predicate NoneFast(intervals: seq<int>, threshold: real) {
    forall i :: 0 <= i < |intervals| ==> !Fast(intervals[i], threshold)
  }

  // ---------------------------------------------------------------------------------------
  // The edge checks
  // ---------------------------------------------------------------------------------------

  lemma {:induction false} NoRuns(intervals: seq<int>, threshold: real, i: nat)
    requires i <= |intervals| && NoneFast(intervals, threshold)
    ensures ChatterRuns(intervals, threshold, i) == []
    decreases |intervals| - i
  {
    if i < |intervals| {
      NoRuns(intervals, threshold, i + 1);
    }
  }

  /** Intervals of at least a quarter bit are never chatter. */
  lemma {:induction false} SlowEdgesAreQuiet(edges: seq<Edge>, bitPeriod: real, channel: string)
    requires NoneFast(Intervals(edges), CHATTER_FRACTION * bitPeriod)
    ensures EdgeChatter(edges, bitPeriod, channel) == []
  {
    NoRuns(Intervals(edges), CHATTER_FRACTION * bitPeriod, 0);
  }

  /** The samples between an edge and the next. */
  function Gap(edges: seq<Edge>, i: nat): int
    requires i + 1 < |edges|
  {
    edges[i + 1].index - edges[i].index
  }

  ghost predicate WideUpTo(edges: seq<Edge>, n: nat)
    requires n == 0 || n < |edges|
  {
    forall i :: 0 <= i < n ==> Gap(edges, i) > RUNT_MAX_SAMPLES
  }

  /** The runt check is silent exactly when every interval is longer than two samples. */
  lemma {:induction false} RuntsExactly(edges: seq<Edge>, channel: string)
    ensures RuntPulses(edges, channel) == [] <==> AllAtLeast(Intervals(edges), RUNT_MAX_SAMPLES + 1)
  {
    if |edges| >= 2 {
      hide RuntsUpTo;
      RuntsOfPrefix(edges, |edges| - 1, channel);
      forall i | 0 <= i < |edges| - 1 ensures Intervals(edges)[i] == Gap(edges, i) {
        IntervalAt(edges, i);
      }
    }
  }

  lemma {:induction false} RuntsOfPrefix(edges: seq<Edge>, n: nat, channel: string)
    requires n == 0 || n < |edges|
    ensures RuntsUpTo(edges, n, channel) == [] <==> WideUpTo(edges, n)
  {
    if n > 0 {
      RuntsOfPrefix(edges, n - 1, channel);
      assert WideUpTo(edges, n) <==> WideUpTo(edges, n - 1) && Gap(edges, n - 1) > RUNT_MAX_SAMPLES;
    }
  }

  // ---------------------------------------------------------------------------------------
  // Intervals of a generated line
  // ---------------------------------------------------------------------------------------

  /** Every interval is a positive whole number of bit periods. */
  lemma {:induction false} WholeBits(levels: seq<bool>, bitSamples: nat)
    requires bitSamples >= 1
    ensures AllAtLeast(Intervals(Edges(Stretch(levels, bitSamples))), bitSamples)
  {
    IntervalsPositive(levels);
    IntervalsStretch(levels, bitSamples);
    var units, intervals := Intervals(Edges(levels)), Intervals(Edges(Stretch(levels, bitSamples)));
    forall i | 0 <= i < |intervals| ensures intervals[i] >= bitSamples {
      MulMonotone(1, units[i], bitSamples);
      assert intervals[i] == units[i] * bitSamples;
    }
  }

  /** With two samples per bit, exactly the lone bits are runts. */
  lemma {:induction false} TwoSampleBits(levels: seq<bool>)
    ensures AllAtLeast(Intervals(Edges(Stretch(levels, 2))), 3) <==> 1 !in Intervals(Edges(levels))
  {
    IntervalsPositive(levels);
    IntervalsStretch(levels, 2);
    Doubled(Intervals(Edges(levels)), Intervals(Edges(Stretch(levels, 2))));
  }

  lemma {:induction false} Doubled(units: seq<int>, intervals: seq<int>)
    requires |units| == |intervals| && AllAtLeast(units, 1)
    requires forall i :: 0 <= i < |units| ==> intervals[i] == units[i] * 2
    ensures AllAtLeast(intervals, 3) <==> 1 !in units
  {
    if 1 in units {
      var i :| 0 <= i < |units| && units[i] == 1;
      assert intervals[i] == 2;
    }
    forall i | 0 <= i < |units| && 1 !in units ensures intervals[i] >= 3 {
      assert units[i] in units;
    }
  }

  lemma {:induction false} LineRunts(payload: seq<int>, bitSamples: nat, channel: string)
    requires bitSamples >= 2
    ensures RuntPulses(Edges(Line(payload, bitSamples)), channel) == []
       <==> bitSamples >= 3 || !AutoBaud.SomeLoneBit(payload, EIGHT_N_ONE)
  {
    var levels := LineLevels(payload, EIGHT_N_ONE);
    RuntsExactly(Edges(Line(payload, bitSamples)), channel);
    if bitSamples == 2 {
      TwoSampleBits(levels);
      AutoBaud.LoneCellIsUnitInterval(levels);
      AutoBaud.LineHasLoneCell(payload, EIGHT_N_ONE);
    } else {
      WholeBits(levels, bitSamples);
    }
  }

  lemma {:induction false} LineChatter(payload: seq<int>, bitPeriod: real, bitSamples: nat, channel: string)
    requires bitSamples >= 2 && bitSamples == Round(bitPeriod)
    ensures EdgeChatter(Edges(Line(payload, bitSamples)), bitPeriod, channel) == []
  {
    WholeBits(LineLevels(payload, EIGHT_N_ONE), bitSamples);
    SlowEdgesAreQuiet(Edges(Line(payload, bitSamples)), bitPeriod, channel);
  }

  // ---------------------------------------------------------------------------------------
  // The framing check
  // ---------------------------------------------------------------------------------------

  ghost predicate NoneBad(events: seq<Event>) {
    forall i :: 0 <= i < |events| ==> !events[i].framingError
  }

  lemma {:induction false} UartEventsKeep(events: seq<Event>)
    requires NoneBad(events)
    ensures NoneBad(UartEvents(events))
  {
    if events != [] {
      UartEventsKeep(events[..|events| - 1]);
    }
  }

  lemma {:induction false} NoBadFrames(events: seq<Event>)
    requires NoneBad(events)
    ensures BadFrames(events) == []
  {
    if events != [] {
      NoBadFrames(events[..|events| - 1]);
    }
  }

  lemma {:induction false} CleanFramesAreCoherent(events: seq<Event>, channel: string)
    requires NoneBad(events)
    ensures FramingIncoherence(events, channel) == []
  {
    UartEventsKeep(events);
    NoBadFrames(UartEvents(events));
    SmokeTraceability.FramingExactly(events, channel);
  }

  // ---------------------------------------------------------------------------------------
  // End to end
  // ---------------------------------------------------------------------------------------

  /** The capture of a generated line and what is hypothesized about it. */
  function LineCapture(g: Generator, name: string): Capture
    requires g.Signal().Ok?
  {
    Capture([Channel(name, g.Signal().value)], g.sampleRate)
  }

  function LineHypothesis(g: Generator, name: string): Hypothesis {
    Hypothesis(UartProtocol, Some(g.baud), [Assignment("rx", name)])
  }

  /** Generate, decode, run every smoke check with the decoder's own events: whenever the
      decoder's rates agree, nothing is reported, unless bits are two samples wide and the
      payload has a lone one. From three samples per bit on, every payload is silent. */
  lemma {:induction false} CleanUartIsSilent(g: Generator, name: string, estimate: seq<bool> -> real)
    requires g.format == EIGHT_N_ONE && g.sampleRate > 0 && RatesAgree(g.sampleRate, g.baud)
    ensures g.Signal().Ok?
    ensures var decoded := Decoded(g.Signal().value, g.sampleRate, g.baud, g.format);
      && decoded.Ok?
      && (SmokeFindings(LineCapture(g, name), LineHypothesis(g, name), Some(OfBytes(decoded.value)), estimate) == Ok([])
          <==> Round(g.sampleRate as real / g.baud as real) >= 3 || !AutoBaud.SomeLoneBit(g.Payload(), g.format))
  {
    hide Decoded, EdgeChatter, RuntPulses, Edges, Aligned, PayloadEvents, FramingIncoherence;
    var bitPeriod := g.sampleRate as real / g.baud as real;
    var bitSamples := Round(bitPeriod);
    AlignedRoundTrip(g.sampleRate, g.baud, g.payload);
    assert g == Generator(g.baud, g.payload, EIGHT_N_ONE, g.sampleRate);
    RatesGiveTwoSamples(g.sampleRate, g.baud);
    LineRunts(g.Payload(), bitSamples, name);
    LineChatter(g.Payload(), bitPeriod, bitSamples, name);
    PayloadIsClean(g.Payload(), bitPeriod, bitSamples);
    CleanFramesAreCoherent(OfBytes(PayloadEvents(g.Payload(), bitPeriod, bitSamples)), name);
    OneChannel(LineCapture(g, name), LineHypothesis(g, name), estimate);
  }

  lemma {:induction false} PayloadIsClean(payload: seq<int>, bitPeriod: real, bitSamples: nat)
    ensures NoneBad(OfBytes(PayloadEvents(payload, bitPeriod, bitSamples)))
  {
  }

  lemma RatesGiveTwoSamples(sampleRate: int, baud: int)
    requires RatesAgree(sampleRate, baud)
    ensures Round(sampleRate as real / baud as real) >= 2
  {
  }

  lemma {:induction false} OneChannel(capture: Capture, hypothesis: Hypothesis, estimate: seq<bool> -> real)
    requires |capture.channels| == 1
    ensures AllChannelFindings(capture.channels, capture.sampleRate, hypothesis, estimate)
         == ChannelFindings(capture.channels[0], capture.sampleRate, hypothesis, estimate)
  {
    assert capture.channels[..0] == [];
    assert AllChannelFindings(capture.channels[..0], capture.sampleRate, hypothesis, estimate) == [];
  }

  /** From ten samples per bit on, whatever the payload. */
  lemma {:induction false} TenSamplesAreSilent(g: Generator, name: string, estimate: seq<bool> -> real)
    requires g.format == EIGHT_N_ONE && g.sampleRate > 0 && g.baud > 0
    requires Round(g.sampleRate as real / g.baud as real) >= 10
    ensures g.Signal().Ok?
    ensures var decoded := Decoded(g.Signal().value, g.sampleRate, g.baud, g.format);
      && decoded.Ok?
      && SmokeFindings(LineCapture(g, name), LineHypothesis(g, name), Some(OfBytes(decoded.value)), estimate) == Ok([])
  {
    TenSamplesSuffice(g.sampleRate as real / g.baud as real);
    CleanUartIsSilent(g, name, estimate);
  }
}
