/** WS2812 pulse trains: the generator and the timing fault injector (tests/synth.py) against
    the timing check of the smoke detector (src/slidko/measure/smoke.py). */
module Ws2812 {
  import opened Numbers
  import opened Results
  import opened Signals
  import opened PulseLengths
  import opened Smoke

  const PERIOD_NS := 1250.0
  const RESET_NS := 60000.0

  datatype Ws2812Error = SampleRateIsZero | OutOfRange | NotHigh | NoSuchSegment

  // ---------------------------------------------------------------------------------------
  // The check on an arbitrary signal
  // ---------------------------------------------------------------------------------------

  /** The lengths of the runs that the check takes for high times: every second run, as long
      as another run follows it. */
  function PulsesOf(runs: seq<Segment>): seq<int> {
    if runs == [] then []
    else seq((|runs| - 1) / 2, b requires 0 <= b < (|runs| - 1) / 2 => runs[2 * b + 1].count)
  }

  function Pulses(c: seq<bool>): seq<int> {
    PulsesOf(ChannelToSegments(c))
  }

  /** The bits among the first `n` whose high time lies in neither window, with that time. */
  function OutsideUpTo(highs: seq<int>, n: nat, sampleRate: real): seq<(int, int)>
    requires n <= |highs| && sampleRate > 0.0
  {
    if n == 0 then []
    else
      OutsideUpTo(highs, n - 1, sampleRate)
      + (if LegalHigh(highs[n - 1], sampleRate) then [] else [(n - 1, highs[n - 1])])
  }

  function Outside(highs: seq<int>, sampleRate: real): seq<(int, int)>
    requires sampleRate > 0.0
  {
    OutsideUpTo(highs, |highs|, sampleRate)
  }

  /** The bit indices and high times that a list of timing findings reports. */
  function Reported(findings: seq<Finding>): seq<(int, int)> {
    seq(|findings|, i requires 0 <= i < |findings| =>
      match findings[i].evidence
      case Timing(bitIndex, highSamples, _) => (bitIndex, highSamples)
      case _ => (-1, -1))
  }

  lemma {:induction false} ReportedSnoc(findings: seq<Finding>, finding: Finding)
    ensures Reported(findings + [finding]) == Reported(findings) + Reported([finding])
  {
  }

  lemma {:induction false} RunBetween(c: seq<bool>, k: nat)
    requires c != [] && k + 1 < |Edges(c)|
    ensures |ChannelToSegments(c)| == |Edges(c)| + 1
    ensures ChannelToSegments(c)[k + 1].count == Edges(c)[k + 1].index - Edges(c)[k].index
  {
    hide Edges, Runs;
    RunsAre(c, RunStarts(c), |c|);
    assert RunStarts(c)[k + 1] == Edges(c)[k].index;
    assert RunStarts(c)[k + 2] == Edges(c)[k + 1].index;
  }

  /** On every signal the check reports exactly the pulses outside both windows, in order and
      with their lengths. */
  lemma {:induction false} TimingExactly(c: seq<bool>, sampleRate: real, channel: string)
    requires sampleRate > 0.0
    ensures Reported(Ws2812Timing(Edges(c), sampleRate, channel)) == Outside(Pulses(c), sampleRate)
  {
    hide Edges, ViolationsUpTo, OutsideUpTo;
    if c == [] {
      assert Edges(c) == [] by { EmptyHasNoEdges(c); }
      NoneUpTo([], Pulses(c), sampleRate, channel);
    } else {
      OneRunPerEdge(c);
      assert |Pulses(c)| == |Edges(c)| / 2;
      forall b | 0 <= b < |Edges(c)| / 2 ensures HighTime(Edges(c), b) == Pulses(c)[b] {
        RunBetween(c, 2 * b);
      }
      NoneUpTo(Edges(c), Pulses(c), sampleRate, channel);
      TimingUpTo(Edges(c), Pulses(c), |Edges(c)| / 2, sampleRate, channel);
    }
  }

  lemma {:induction false} EmptyHasNoEdges(c: seq<bool>)
    requires c == []
    ensures Edges(c) == []
  {
  }

  lemma {:induction false} NoneUpTo(edges: seq<Edge>, highs: seq<int>, sampleRate: real, channel: string)
    requires sampleRate > 0.0
    ensures ViolationsUpTo(edges, 0, sampleRate, channel) == []
    ensures OutsideUpTo(highs, 0, sampleRate) == []
  {
  }

  lemma {:induction false} TimingUpTo(edges: seq<Edge>, highs: seq<int>, n: nat, sampleRate: real, channel: string)
    requires sampleRate > 0.0 && 2 * n <= |edges| && n <= |highs|
    requires forall b :: 0 <= b < n ==> HighTime(edges, b) == highs[b]
    ensures Reported(ViolationsUpTo(edges, n, sampleRate, channel)) == OutsideUpTo(highs, n, sampleRate)
  {
    hide LegalHigh, TimingFinding, HighTime, Reported;
    assert n == 0 ==> Reported([]) == [] by { NothingReported(); }
    if n > 0 {
      TimingUpTo(edges, highs, n - 1, sampleRate, channel);
      var before := ViolationsUpTo(edges, n - 1, sampleRate, channel);
      assert HighTime(edges, n - 1) == highs[n - 1];
      if LegalHigh(highs[n - 1], sampleRate) {
        assert before + [] == before;
        assert OutsideUpTo(highs, n - 1, sampleRate) + [] == OutsideUpTo(highs, n - 1, sampleRate);
      } else {
        ReportedSnoc(before, TimingFinding(edges, n - 1, sampleRate, channel));
        ReportedOne(edges, n - 1, sampleRate, channel);
      }
    }
  }

  lemma {:induction false} NothingReported()
    ensures Reported([]) == []
  {
  }

  lemma {:induction false} ReportedOne(edges: seq<Edge>, b: nat, sampleRate: real, channel: string)
    requires sampleRate > 0.0 && 2 * b + 1 < |edges|
    ensures Reported([TimingFinding(edges, b, sampleRate, channel)]) == [(b, HighTime(edges, b))]
  {
  }

  /** On a signal that begins low these pulses are its high runs. */
  lemma {:induction false} PulsesAreHigh(c: seq<bool>, b: nat)
    requires c != [] && !c[0] && b < |Pulses(c)|
    ensures 2 * b + 1 < |ChannelToSegments(c)| && ChannelToSegments(c)[2 * b + 1].level
  {
    hide Edges, Runs;
    RunLevels(c, 2 * b + 1);
  }

  // ---------------------------------------------------------------------------------------
  // Generator
  // ---------------------------------------------------------------------------------------

  /** Sample counts of one bit cell at some rate. */
  datatype Cells = Cells(period: int, t0h: int, t1h: int, reset: int) {

    function High(bit: bool): int {
      if bit then t1h else t0h
    }

    function Cell(bit: bool): seq<Segment> {
      [Segment(true, High(bit)), Segment(false, period - High(bit))]
    }

    function Train(bits: seq<bool>): seq<Segment> {
      if bits == [] then [Segment(false, period)]
      else Train(bits[..|bits| - 1]) + Cell(bits[|bits| - 1])
    }

    /** Every phase of a cell lasts at least one sample. */
    predicate Distinct() {
      1 <= t0h < period && 1 <= t1h < period
    }

    function Highs(bits: seq<bool>): seq<int> {
      seq(|bits|, b requires 0 <= b < |bits| => High(bits[b]))
    }
  }

  function CellsAt(sampleRate: int): Cells
    requires sampleRate != 0
  {
    Cells(Samples(PERIOD_NS, sampleRate), Samples(WS2812_T0H_NS, sampleRate),
          Samples(WS2812_T1H_NS, sampleRate), Samples(RESET_NS, sampleRate))
  }

  datatype Generator = Generator(payload: seq<int>, sampleRate: int) {

    function Payload(): seq<int> {
      if payload == [] then [0x55] else payload
    }

    /** What `generate` promises. */
    function Signal(): Result<seq<bool>, Ws2812Error> {
      if sampleRate == 0 then Err(SampleRateIsZero)
      else
        var cells := CellsAt(sampleRate);
        Ok(Expand(cells.Train(PayloadBits(Payload())) + [Segment(false, cells.reset)]))
    }

    method Generate() returns (r: Result<seq<bool>, Ws2812Error>)
      ensures r == Signal()
    {
      if sampleRate == 0 {
        return Err(SampleRateIsZero);
      }
      var cells := CellsAt(sampleRate);
      var segments := [Segment(false, cells.period)];
      for i := 0 to |Payload()|
        invariant segments == cells.Train(PayloadBits(Payload()[..i]))
      {
        assert Payload()[..i + 1][..i] == Payload()[..i];
        segments := ByteCells(segments, cells, Payload()[i], PayloadBits(Payload()[..i]));
      }
      assert Payload()[..|Payload()|] == Payload();
      segments := segments + [Segment(false, cells.reset)];
      return Ok(Expand(segments));
    }
  }

  /** The inner loop of `generate`: the cells of one byte. */
  method ByteCells(before: seq<Segment>, cells: Cells, byte: int, ghost sent: seq<bool>)
    returns (segments: seq<Segment>)
    requires before == cells.Train(sent)
    ensures segments == cells.Train(sent + BitsMsb(byte, 8))
  {
    hide Cells.Train;
    segments := before;
    var bits := BitsMsb(byte, 8);
    assert sent + bits[..0] == sent;
    for i := 0 to |bits|
      invariant segments == cells.Train(sent + bits[..i])
    {
      TrainSnoc(cells, sent, bits, i);
      ghost var start := segments;
      if bits[i] {
        segments := segments + [Segment(true, cells.t1h)];
        segments := segments + [Segment(false, cells.period - cells.t1h)];
      } else {
        segments := segments + [Segment(true, cells.t0h)];
        segments := segments + [Segment(false, cells.period - cells.t0h)];
      }
      assert segments == start + cells.Cell(bits[i]);
    }
    assert bits[..|bits|] == bits;
  }

  lemma {:induction false} TrainSnoc(cells: Cells, sent: seq<bool>, bits: seq<bool>, i: nat)
    requires i < |bits|
    ensures cells.Train(sent + bits[..i + 1]) == cells.Train(sent + bits[..i]) + cells.Cell(bits[i])
  {
    assert (sent + bits[..i + 1])[..|sent| + i] == sent + bits[..i];
  }

  /** A train whose phases are all nonempty is already in run-length form. */
  lemma {:induction false} TrainShape(cells: Cells, bits: seq<bool>)
    requires cells.Distinct()
    ensures |cells.Train(bits)| == 2 * |bits| + 1
    ensures Coalesced(cells.Train(bits))
    ensures !cells.Train(bits)[2 * |bits|].level
    ensures PulsesOf(cells.Train(bits)) == cells.Highs(bits)
  {
    if bits != [] {
      var n := |bits| - 1;
      TrainShape(cells, bits[..n]);
      CellExtends(cells, cells.Train(bits[..n]), bits[n]);
      assert cells.Highs(bits) == cells.Highs(bits[..n]) + [cells.High(bits[n])];
    }
  }

  lemma {:induction false} CellExtends(cells: Cells, train: seq<Segment>, bit: bool)
    requires cells.Distinct() && Coalesced(train) && |train| % 2 == 1 && !train[|train| - 1].level
    ensures Coalesced(train + cells.Cell(bit))
    ensures PulsesOf(train + cells.Cell(bit)) == PulsesOf(train) + [cells.High(bit)]
  {
    var cell := cells.Cell(bit);
    assert train + cell == (train + [cell[0]]) + [cell[1]];
    CoalescedSnoc(train, cell[0]);
    CoalescedSnoc(train + [cell[0]], cell[1]);
    PulsesSnoc(train, cell[0], cell[1]);
  }

  lemma {:induction false} CoalescedSnoc(runs: seq<Segment>, s: Segment)
    requires Coalesced(runs) && runs != [] && runs[|runs| - 1].level != s.level && s.count > 0
    ensures Coalesced(runs + [s])
  {
  }

  lemma {:induction false} PulsesSnoc(runs: seq<Segment>, s: Segment, t: Segment)
    requires |runs| % 2 == 1
    ensures PulsesOf(runs + [s] + [t]) == PulsesOf(runs) + [s.count]
  {
    var n := (|runs| - 1) / 2;
    assert |runs| == 2 * n + 1;
    var all := runs + [s] + [t];
    assert all[2 * n + 1] == s;
    forall b | 0 <= b < n ensures PulsesOf(all)[b] == PulsesOf(runs)[b] {
      assert all[2 * b + 1] == runs[2 * b + 1];
    }
  }

  /** The pulses of a generated capture are the nominal high times of its payload bits. */
  lemma {:induction false} GeneratedPulses(g: Generator)
    requires g.sampleRate != 0 && CellsAt(g.sampleRate).Distinct()
    ensures Pulses(g.Signal().value) == CellsAt(g.sampleRate).Highs(PayloadBits(g.Payload()))
  {
    hide Pulses, CellsAt, Expand, PayloadBits;
    var cells, bits := CellsAt(g.sampleRate), PayloadBits(g.Payload());
    TrainPulses(cells, bits);
  }

  lemma {:induction false} TrainPulses(cells: Cells, bits: seq<bool>)
    requires cells.Distinct()
    ensures Pulses(Expand(cells.Train(bits) + [Segment(false, cells.reset)])) == cells.Highs(bits)
  {
    hide Coalesced, PulsesOf, Push, Expand, ChannelToSegments;
    var train, reset := cells.Train(bits), Segment(false, cells.reset);
    TrainShape(cells, bits);
    EncodeExpand(train + [reset]);
    CoalesceCoalesced(train);
    CoalesceSnoc(train, reset);
    ResetMerges(train, reset);
  }

  lemma {:induction false} ResetMerges(train: seq<Segment>, reset: Segment)
    requires |train| % 2 == 1 && !train[|train| - 1].level && !reset.level
    ensures PulsesOf(Push(train, reset)) == PulsesOf(train)
  {
  }

  /** A generated capture is reported as exactly the payload bits whose rounded high time
      already leaves both windows. */
  lemma {:induction false} GeneratedTimingExactly(g: Generator, channel: string)
    requires g.sampleRate > 0 && CellsAt(g.sampleRate).Distinct()
    ensures Reported(Ws2812Timing(Edges(g.Signal().value), g.sampleRate as real, channel))
         == Outside(CellsAt(g.sampleRate).Highs(PayloadBits(g.Payload())), g.sampleRate as real)
  {
    hide Pulses, Edges, CellsAt, Outside, Ws2812Timing, PayloadBits;
    GeneratedPulses(g);
    TimingExactly(g.Signal().value, g.sampleRate as real, channel);
  }

  // ---------------------------------------------------------------------------------------
  // Sampled finely enough, generated trains are silent
  // ---------------------------------------------------------------------------------------

  /** The sample period is at most 300 ns: half a sample fits the datasheet tolerance. */
  predicate FineEnough(sampleRate: int) {
    sampleRate > 0 && SampleNs(sampleRate as real) <= 300.0
  }

  lemma QuotientAtLeast(x: real, d: real, q: real)
    requires d > 0.0 && q * d <= x
    ensures x / d >= q
  {
    var p := x / d;
    assert p * d == x;
    if p < q {
      assert (q - p) * d > 0.0;
    }
  }

  lemma Spread(x: real, y: real, d: real)
    requires d > 0.0
    ensures x / d - y / d == (x - y) / d
  {
    var p, q := x / d, y / d;
    assert p * d == x && q * d == y;
    assert (p - q) * d == x - y;
  }

  lemma {:induction false} HalfSampleFits(sampleRate: int, ns: real)
    requires FineEnough(sampleRate)
    ensures InWindow(Samples(ns, sampleRate), ns, sampleRate as real)
  {
    QuotientAtLeast(WS2812_WINDOW_NS, SampleNs(sampleRate as real), 0.5);
  }

  lemma {:induction false} PhasesDistinct(sampleRate: int)
    requires FineEnough(sampleRate)
    ensures CellsAt(sampleRate).Distinct()
  {
    var d := SampleNs(sampleRate as real);
    SampleNsPositive(sampleRate);
    QuotientAtLeast(WS2812_T0H_NS, d, 1.0);
    QuotientAtLeast(WS2812_T1H_NS, d, 1.0);
    QuotientAtLeast(PERIOD_NS - WS2812_T1H_NS, d, 1.5);
    QuotientAtLeast(PERIOD_NS - WS2812_T0H_NS, d, 1.5);
    Spread(PERIOD_NS, WS2812_T1H_NS, d);
    Spread(PERIOD_NS, WS2812_T0H_NS, d);
  }

  lemma SampleNsPositive(sampleRate: int)
    requires sampleRate > 0
    ensures SampleNs(sampleRate as real) > 0.0
  {
  }

  lemma {:induction false} AllLegal(highs: seq<int>, n: nat, sampleRate: real)
    requires n <= |highs| && sampleRate > 0.0
    requires forall b :: 0 <= b < n ==> LegalHigh(highs[b], sampleRate)
    ensures OutsideUpTo(highs, n, sampleRate) == []
  {
    hide LegalHigh;
    if n > 0 {
      AllLegal(highs, n - 1, sampleRate);
    }
  }

  /** With a sample period of at most 300 ns, no payload is ever reported. */
  lemma {:induction false} FineTrainsAreSilent(g: Generator, channel: string)
    requires FineEnough(g.sampleRate)
    ensures Reported(Ws2812Timing(Edges(g.Signal().value), g.sampleRate as real, channel)) == []
  {
    hide Edges, Ws2812Timing, PayloadBits, InWindow, OutsideUpTo;
    var bits := PayloadBits(g.Payload());
    PhasesDistinct(g.sampleRate);
    GeneratedTimingExactly(g, channel);
    HalfSampleFits(g.sampleRate, WS2812_T0H_NS);
    HalfSampleFits(g.sampleRate, WS2812_T1H_NS);
    AllLegal(CellsAt(g.sampleRate).Highs(bits), |bits|, g.sampleRate as real);
  }

  // ---------------------------------------------------------------------------------------
  // Injected violations
  // ---------------------------------------------------------------------------------------

  datatype Injection = Injection(bitIndex: int, violationNs: int)

  /** The segment that a bit index names; a negative index counts from the end. */
  function Target(runs: nat, bitIndex: int): int {
    if 1 + bitIndex * 2 < 0 then runs + 1 + bitIndex * 2 else 1 + bitIndex * 2
  }

  function Violation(injection: Injection, sampleRate: int): (samples: int)
    requires sampleRate != 0
    ensures samples >= 1
  {
    Max(1, Samples(injection.violationNs as real, sampleRate))
  }

  function Lengthen(runs: seq<Segment>, target: int, extra: int): seq<Segment>
    requires 0 <= target < |runs|
  {
    runs[target := Segment(runs[target].level, runs[target].count + extra)]
  }

  /** What `inject_ws2812_violation` promises. */
  function Injected(c: seq<bool>, sampleRate: int, injection: Injection): Result<seq<bool>, Ws2812Error> {
    if sampleRate == 0 then Err(SampleRateIsZero)
    else
      var runs := ChannelToSegments(c);
      var target := Target(|runs|, injection.bitIndex);
      if 1 + injection.bitIndex * 2 >= |runs| - 1 then Err(OutOfRange)
      else if target < 0 then Err(NoSuchSegment)
      else if !runs[target].level then Err(NotHigh)
      else Ok(Expand(Lengthen(runs, target, Violation(injection, sampleRate))))
  }

  method Inject(c: seq<bool>, sampleRate: int, injection: Injection) returns (r: Result<seq<bool>, Ws2812Error>)
    ensures r == Injected(c, sampleRate, injection)
  {
    if sampleRate == 0 {
      return Err(SampleRateIsZero);
    }
    var segments := ChannelToSegments(c);
    var violationSamples := Violation(injection, sampleRate);
    if 1 + injection.bitIndex * 2 >= |segments| - 1 {
      return Err(OutOfRange);
    }
    var target := Target(|segments|, injection.bitIndex);
    if target < 0 {
      return Err(NoSuchSegment);
    }
    if !segments[target].level {
      return Err(NotHigh);
    }
    segments := segments[target := Segment(segments[target].level, segments[target].count + violationSamples)];
    return Ok(Expand(segments));
  }

  function InjectedAll(c: seq<bool>, sampleRate: int, injections: seq<Injection>): Result<seq<bool>, Ws2812Error> {
    if injections == [] then Ok(c)
    else
      match InjectedAll(c, sampleRate, injections[..|injections| - 1])
      case Err(e) => Err(e)
      case Ok(before) => Injected(before, sampleRate, injections[|injections| - 1])
  }

  /** By how much the injections lengthen one run. */
  function Extra(injections: seq<Injection>, runs: nat, sampleRate: int, run: int): (samples: nat)
    requires sampleRate != 0
  {
    if injections == [] then 0
    else
      var last := injections[|injections| - 1];
      Extra(injections[..|injections| - 1], runs, sampleRate, run)
      + (if Target(runs, last.bitIndex) == run then Violation(last, sampleRate) else 0)
  }

  ghost predicate IsLengthened(runs: seq<Segment>, original: seq<Segment>, injections: seq<Injection>, sampleRate: int)
    requires sampleRate != 0
  {
    && |runs| == |original|
    && forall k :: 0 <= k < |runs| ==>
      runs[k] == Segment(original[k].level, original[k].count + Extra(injections, |original|, sampleRate, k))
  }

  /** One injection lengthens one run and moves no level change into another. */
  lemma {:induction false} InjectionLengthens(c: seq<bool>, sampleRate: int, injection: Injection)
    requires Injected(c, sampleRate, injection).Ok?
    ensures var runs := ChannelToSegments(c);
      && 0 <= Target(|runs|, injection.bitIndex) < |runs|
      && ChannelToSegments(Injected(c, sampleRate, injection).value)
         == Lengthen(runs, Target(|runs|, injection.bitIndex), Violation(injection, sampleRate))
  {
    hide ChannelToSegments, Samples;
    var runs := ChannelToSegments(c);
    var longer := Lengthen(runs, Target(|runs|, injection.bitIndex), Violation(injection, sampleRate));
    SegmentsCoalesced(c);
    LengthenCoalesced(runs, Target(|runs|, injection.bitIndex), Violation(injection, sampleRate));
    EncodeExpand(longer);
    CoalesceCoalesced(longer);
  }

  /** Injecting into any capture: run `1 + 2 b`, counted from the end when that is negative, must
      be one of the runs but the last, and high; it alone grows, by the rounded violation time or
      at least one sample. */
  lemma {:induction false} InjectionExactly(c: seq<bool>, sampleRate: int, injection: Injection)
    requires sampleRate != 0
    ensures var r, runs, place := Injected(c, sampleRate, injection), ChannelToSegments(c), 1 + 2 * injection.bitIndex;
      var at := if place >= 0 then place else |runs| + place;
      var samples := Samples(injection.violationNs as real, sampleRate);
      && (r == Err(OutOfRange) <==> place >= |runs| - 1)
      && (r == Err(NoSuchSegment) <==> place < |runs| - 1 && at < 0)
      && (r == Err(NotHigh) <==> place < |runs| - 1 && at >= 0 && !runs[at].level)
      && (r.Ok? ==>
            && 0 <= at < |runs|
            && ChannelToSegments(r.value)
               == runs[at := Segment(true, runs[at].count + (if samples > 1 then samples else 1))])
  {
    hide ChannelToSegments, Expand, Samples;
    if Injected(c, sampleRate, injection).Ok? {
      InjectionLengthens(c, sampleRate, injection);
    }
  }

  lemma {:induction false} LengthenCoalesced(runs: seq<Segment>, target: int, extra: int)
    requires Coalesced(runs) && 0 <= target < |runs| && extra >= 0
    ensures Coalesced(Lengthen(runs, target, extra))
  {
  }

  lemma {:induction false} InjectionsLengthen(c: seq<bool>, sampleRate: int, injections: seq<Injection>)
    requires sampleRate != 0 && InjectedAll(c, sampleRate, injections).Ok?
    ensures IsLengthened(ChannelToSegments(InjectedAll(c, sampleRate, injections).value), ChannelToSegments(c),
                         injections, sampleRate)
  {
    hide ChannelToSegments, Injected;
    if injections != [] {
      var n := |injections| - 1;
      InjectionsLengthen(c, sampleRate, injections[..n]);
      var before := InjectedAll(c, sampleRate, injections[..n]).value;
      InjectionLengthens(before, sampleRate, injections[n]);
      LengthenOnce(ChannelToSegments(before), ChannelToSegments(c), injections, sampleRate);
    }
  }

  lemma {:induction false} LengthenOnce(runs: seq<Segment>, original: seq<Segment>, injections: seq<Injection>,
                                        sampleRate: int)
    requires sampleRate != 0 && injections != []
    requires IsLengthened(runs, original, injections[..|injections| - 1], sampleRate)
    requires 0 <= Target(|runs|, injections[|injections| - 1].bitIndex) < |runs|
    ensures var last := injections[|injections| - 1];
      IsLengthened(Lengthen(runs, Target(|runs|, last.bitIndex), Violation(last, sampleRate)), original, injections,
                   sampleRate)
  {
    hide Violation, Target;
  }

  /** Each pulse, lengthened by what was injected into it. */
  function Perturbed(c: seq<bool>, injections: seq<Injection>, sampleRate: int): seq<int>
    requires sampleRate != 0
  {
    seq(|Pulses(c)|, b requires 0 <= b < |Pulses(c)| =>
      Pulses(c)[b] + Extra(injections, |ChannelToSegments(c)|, sampleRate, 2 * b + 1))
  }

  /** After any successful injections into any capture, the check reports exactly the pulses
      that, lengthened by what was injected into them, leave both windows. */
  lemma {:induction false} InjectedTimingExactly(c: seq<bool>, sampleRate: int, injections: seq<Injection>,
                                                 channel: string)
    requires sampleRate > 0 && InjectedAll(c, sampleRate, injections).Ok?
    ensures Reported(Ws2812Timing(Edges(InjectedAll(c, sampleRate, injections).value), sampleRate as real, channel))
         == Outside(Perturbed(c, injections, sampleRate), sampleRate as real)
  {
    hide Edges, ChannelToSegments, InjectedAll, Ws2812Timing, Outside;
    var c' := InjectedAll(c, sampleRate, injections).value;
    InjectionsLengthen(c, sampleRate, injections);
    TimingExactly(c', sampleRate as real, channel);
    PulsesLengthen(ChannelToSegments(c'), ChannelToSegments(c), injections, sampleRate);
    assert Pulses(c') == Perturbed(c, injections, sampleRate);
  }

  lemma {:induction false} PulsesLengthen(runs: seq<Segment>, original: seq<Segment>, injections: seq<Injection>,
                                          sampleRate: int)
    requires sampleRate != 0 && IsLengthened(runs, original, injections, sampleRate)
    ensures |PulsesOf(runs)| == |PulsesOf(original)|
    ensures forall b :: 0 <= b < |PulsesOf(runs)| ==>
      PulsesOf(runs)[b] == PulsesOf(original)[b] + Extra(injections, |original|, sampleRate, 2 * b + 1)
  {
    hide IsLengthened, Extra, PulsesOf;
    PulseCount(runs);
    PulseCount(original);
    assert |runs| == |original| by { SameLength(runs, original, injections, sampleRate); }
    forall b | 0 <= b < |PulsesOf(runs)|
      ensures PulsesOf(runs)[b] == PulsesOf(original)[b] + Extra(injections, |original|, sampleRate, 2 * b + 1)
    {
      PulseLengthens(runs, original, injections, sampleRate, b);
    }
  }

  lemma {:induction false} SameLength(runs: seq<Segment>, original: seq<Segment>, injections: seq<Injection>,
                                      sampleRate: int)
    requires sampleRate != 0 && IsLengthened(runs, original, injections, sampleRate)
    ensures |runs| == |original|
  {
  }

  lemma {:induction false} PulseCount(runs: seq<Segment>)
    ensures |PulsesOf(runs)| == if runs == [] then 0 else (|runs| - 1) / 2
  {
  }

  lemma {:induction false} PulseAt(runs: seq<Segment>, b: nat)
    requires b < |PulsesOf(runs)|
    ensures 2 * b + 2 < |runs| && PulsesOf(runs)[b] == runs[2 * b + 1].count
  {
    PulseCount(runs);
    var n := |PulsesOf(runs)|;
    HalfBound(|runs| - 1, n, b);
  }

  lemma HalfBound(runs: int, n: int, b: nat)
    requires runs >= 0 && n == runs / 2 && b < n
    ensures 2 * b + 2 <= runs
  {
  }

  lemma {:induction false} PulseLengthens(runs: seq<Segment>, original: seq<Segment>, injections: seq<Injection>,
                                          sampleRate: int, b: nat)
    requires sampleRate != 0 && IsLengthened(runs, original, injections, sampleRate)
    requires |runs| == |original| && b < |PulsesOf(runs)| && b < |PulsesOf(original)|
    ensures PulsesOf(runs)[b] == PulsesOf(original)[b] + Extra(injections, |original|, sampleRate, 2 * b + 1)
  {
    hide Extra, PulsesOf;
    var k := 2 * b + 1;
    PulseAt(runs, b);
    PulseAt(original, b);
    assert runs[k].count == original[k].count + Extra(injections, |original|, sampleRate, k);
  }

  lemma {:induction false} OutsideMembers(highs: seq<int>, n: nat, sampleRate: real, b: int, high: int)
    requires n <= |highs| && sampleRate > 0.0
    ensures (b, high) in OutsideUpTo(highs, n, sampleRate)
       <==> 0 <= b < n && high == highs[b] && !LegalHigh(high, sampleRate)
  {
    hide LegalHigh;
    if n > 0 {
      OutsideMembers(highs, n - 1, sampleRate, b, high);
    }
  }

  lemma {:induction false} ExtraIsInjected(injections: seq<Injection>, runs: nat, sampleRate: int, run: int)
    requires sampleRate != 0
    ensures Extra(injections, runs, sampleRate, run) > 0
       <==> exists i :: 0 <= i < |injections| && Target(runs, injections[i].bitIndex) == run
  {
    hide Target;
    if injections != [] {
      var n := |injections| - 1;
      ExtraIsInjected(injections[..n], runs, sampleRate, run);
      if i :| 0 <= i < n && Target(runs, injections[i].bitIndex) == run {
        assert injections[..n][i] == injections[i];
      }
    }
  }

  /** On a finely sampled generated capture the reported bits are exactly the injected bits
      whose lengthened high time leaves both windows: each once, in order. */
  lemma {:induction false} InjectedBitsExactly(g: Generator, injections: seq<Injection>, channel: string, b: int,
                                               high: int)
    requires FineEnough(g.sampleRate) && InjectedAll(g.Signal().value, g.sampleRate, injections).Ok?
    ensures var bits, n := PayloadBits(g.Payload()), |ChannelToSegments(g.Signal().value)|;
      (b, high) in Reported(Ws2812Timing(Edges(InjectedAll(g.Signal().value, g.sampleRate, injections).value),
                                         g.sampleRate as real, channel))
      <==> && 0 <= b < |bits|
           && (exists i :: 0 <= i < |injections| && Target(n, injections[i].bitIndex) == 2 * b + 1)
           && high == CellsAt(g.sampleRate).High(bits[b]) + Extra(injections, n, g.sampleRate, 2 * b + 1)
           && !LegalHigh(high, g.sampleRate as real)
  {
    hide Edges, ChannelToSegments, InjectedAll, Ws2812Timing, Target, LegalHigh, Extra, CellsAt, PayloadBits,
      OutsideUpTo, Pulses;
    var c, bits := g.Signal().value, PayloadBits(g.Payload());
    var n := |ChannelToSegments(c)|;
    InjectedTimingExactly(c, g.sampleRate, injections, channel);
    PhasesDistinct(g.sampleRate);
    GeneratedPulses(g);
    var highs := Perturbed(c, injections, g.sampleRate);
    OutsideMembers(highs, |highs|, g.sampleRate as real, b, high);
    if 0 <= b < |bits| {
      ExtraIsInjected(injections, n, g.sampleRate, 2 * b + 1);
      NominalIsLegal(g.sampleRate, bits[b]);
    }
  }

  lemma {:induction false} NominalIsLegal(sampleRate: int, bit: bool)
    requires FineEnough(sampleRate)
    ensures LegalHigh(CellsAt(sampleRate).High(bit), sampleRate as real)
  {
    hide InWindow;
    HalfSampleFits(sampleRate, WS2812_T0H_NS);
    HalfSampleFits(sampleRate, WS2812_T1H_NS);
  }

  // --- the default violation

  const DEFAULT_VIOLATION_NS := 300

  lemma {:induction false} FirstRunIsLead(cells: Cells, bits: seq<bool>)
    ensures cells.Train(bits)[0] == Segment(false, cells.period)
  {
    if bits != [] {
      FirstRunIsLead(cells, bits[..|bits| - 1]);
    }
  }

  lemma {:induction false} StartsLow(g: Generator)
    requires g.sampleRate != 0 && CellsAt(g.sampleRate).Distinct()
    ensures g.Signal().value != [] && !g.Signal().value[0]
  {
    hide CellsAt, PayloadBits;
    var cells := CellsAt(g.sampleRate);
    FirstRunIsLead(cells, PayloadBits(g.Payload()));
    FirstLevel(cells.Train(PayloadBits(g.Payload())) + [Segment(false, cells.reset)]);
  }

  /** Every payload bit of a generated capture can be injected into. */
  lemma {:induction false} InjectionSucceeds(g: Generator, injection: Injection)
    requires FineEnough(g.sampleRate) && 0 <= injection.bitIndex < |PayloadBits(g.Payload())|
    ensures Injected(g.Signal().value, g.sampleRate, injection).Ok?
  {
    hide CellsAt, PayloadBits, ChannelToSegments;
    PhasesDistinct(g.sampleRate);
    GeneratedPulses(g);
    StartsLow(g);
    PulsesAreHigh(g.Signal().value, injection.bitIndex);
    PulseCount(ChannelToSegments(g.Signal().value));
  }

  lemma {:induction false} OnlyOne(highs: seq<int>, n: nat, sampleRate: real, b: nat)
    requires b < |highs| && n <= |highs| && sampleRate > 0.0
    requires forall i :: 0 <= i < |highs| && i != b ==> LegalHigh(highs[i], sampleRate)
    ensures OutsideUpTo(highs, n, sampleRate)
         == if b < n && !LegalHigh(highs[b], sampleRate) then [(b, highs[b])] else []
  {
    hide LegalHigh;
    if n > 0 {
      OnlyOne(highs, n - 1, sampleRate, b);
    }
  }

  lemma {:induction false} ExtraOfOne(injection: Injection, runs: nat, sampleRate: int, run: int)
    requires sampleRate != 0
    ensures Extra([injection], runs, sampleRate, run)
         == if Target(runs, injection.bitIndex) == run then Violation(injection, sampleRate) else 0
  {
    hide Violation, Target;
    assert [injection][..0] == [];
    assert Extra([], runs, sampleRate, run) == 0;
  }

  /** One injection, alone, into a finely sampled generated capture. */
  lemma {:induction false} SingleInjection(g: Generator, injection: Injection, channel: string)
    requires FineEnough(g.sampleRate) && 0 <= injection.bitIndex < |PayloadBits(g.Payload())|
    ensures Injected(g.Signal().value, g.sampleRate, injection).Ok?
    ensures var high := CellsAt(g.sampleRate).High(PayloadBits(g.Payload())[injection.bitIndex])
         + Violation(injection, g.sampleRate);
      Reported(Ws2812Timing(Edges(Injected(g.Signal().value, g.sampleRate, injection).value), g.sampleRate as real,
                            channel))
      == if LegalHigh(high, g.sampleRate as real) then [] else [(injection.bitIndex, high)]
  {
    hide Edges, ChannelToSegments, Injected, Ws2812Timing, LegalHigh, CellsAt, PayloadBits, OutsideUpTo, Pulses,
      Violation, Extra;
    var c, bits := g.Signal().value, PayloadBits(g.Payload());
    InjectionSucceeds(g, injection);
    PhasesDistinct(g.sampleRate);
    GeneratedPulses(g);
    assert [injection][..0] == [];
    assert InjectedAll(c, g.sampleRate, [injection]) == Injected(c, g.sampleRate, injection);
    InjectedTimingExactly(c, g.sampleRate, [injection], channel);
    var highs := Perturbed(c, [injection], g.sampleRate);
    forall i | 0 <= i < |bits|
      ensures highs[i] == CellsAt(g.sampleRate).High(bits[i])
           + (if i == injection.bitIndex then Violation(injection, g.sampleRate) else 0)
      ensures i != injection.bitIndex ==> LegalHigh(highs[i], g.sampleRate as real)
    {
      ExtraOfOne(injection, |ChannelToSegments(c)|, g.sampleRate, 2 * i + 1);
      NominalIsLegal(g.sampleRate, bits[i]);
    }
    OnlyOne(highs, |highs|, g.sampleRate as real, injection.bitIndex);
  }

  /** At the default 24 MS/s the default violation is reported exactly on the bits that are
      one: a lengthened zero passes for a one. */
  lemma {:induction false} DefaultViolationMissesZeros(g: Generator, b: nat, channel: string)
    requires g.sampleRate == 24000000 && b < |PayloadBits(g.Payload())|
    ensures var dirty := Injected(g.Signal().value, g.sampleRate, Injection(b, DEFAULT_VIOLATION_NS));
      && dirty.Ok?
      && Reported(Ws2812Timing(Edges(dirty.value), g.sampleRate as real, channel))
         == if PayloadBits(g.Payload())[b] then [(b as int, 26)] else []
  {
    hide Edges, Injected, Ws2812Timing, PayloadBits, LegalHigh, CellsAt, Violation;
    DefaultCounts();
    SingleInjection(g, Injection(b, DEFAULT_VIOLATION_NS), channel);
  }

  lemma {:induction false} DefaultCounts()
    ensures FineEnough(24000000)
    ensures CellsAt(24000000).High(false) == 10 && CellsAt(24000000).High(true) == 19
    ensures forall b :: Violation(Injection(b, DEFAULT_VIOLATION_NS), 24000000) == 7
    ensures LegalHigh(17, 24000000 as real) && !LegalHigh(26, 24000000 as real)
  {
    RoundIs(9.6, 10);
    RoundIs(19.2, 19);
    RoundIs(7.2, 7);
  }

  // ---------------------------------------------------------------------------------------
  // A generated capture in nanoseconds
  // ---------------------------------------------------------------------------------------

  lemma {:induction false} TrainLength(cells: Cells, bits: seq<bool>)
    requires cells.Distinct()
    ensures |Expand(cells.Train(bits))| == cells.period + |bits| * cells.period
  {
    hide Expand;
    if bits == [] {
      OneExpanded(Segment(false, cells.period));
    } else {
      var n := |bits| - 1;
      var cell := cells.Cell(bits[n]);
      TrainLength(cells, bits[..n]);
      assert cell == [cell[0]] + [cell[1]];
      ExpandConcat(cells.Train(bits[..n]), cell);
      ExpandConcat([cell[0]], [cell[1]]);
      OneExpanded(cell[0]);
      OneExpanded(cell[1]);
      MulSucc(n, cells.period);
    }
  }

  lemma {:induction false} OneExpanded(s: Segment)
    ensures |Expand([s])| == Max(0, s.count)
  {
    assert [s][1..] == [];
  }

  /** Every byte is eight pulses, most significant bit first, of 800 ns for a one and 400 ns for a
      zero, a bit lasting 1250 ns; one bit of silence precedes them and 60 us follow. */
  lemma {:induction false} CaptureExactly(g: Generator)
    requires g.sampleRate != 0 && CellsAt(g.sampleRate).Distinct()
    ensures g.Signal().Ok?
    ensures var payload, pulses := if g.payload == [] then [0x55] else g.payload, Pulses(g.Signal().value);
      && |pulses| == 8 * |payload|
      && (forall j :: 0 <= j < |pulses| ==>
            pulses[j] == Samples(if Bit(payload[j / 8], 7 - j % 8) then 800.0 else 400.0, g.sampleRate))
      && |g.Signal().value|
         == Samples(1250.0, g.sampleRate) + 8 * |payload| * Samples(1250.0, g.sampleRate)
            + Max(0, Samples(60000.0, g.sampleRate))
  {
    hide Pulses, Expand, Samples, Bit, Cells.Train;
    var cells, payload := CellsAt(g.sampleRate), g.Payload();
    var bits := PayloadBits(payload);
    PayloadBitsLength(payload);
    GeneratedPulses(g);
    TrainLength(cells, bits);
    ExpandConcat(cells.Train(bits), [Segment(false, cells.reset)]);
    OneExpanded(Segment(false, cells.reset));
    forall j | 0 <= j < |bits|
      ensures cells.Highs(bits)[j] == Samples(if Bit(payload[j / 8], 7 - j % 8) then 800.0 else 400.0, g.sampleRate)
    {
      var k := j / 8;
      PayloadBitsAt(payload, k);
      assert bits[j] == bits[8 * k..8 * k + 8][j % 8];
    }
  }
}
