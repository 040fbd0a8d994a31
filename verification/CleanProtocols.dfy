/** When the runt check of the smoke detector (src/slidko/measure/smoke.py) is silent on clean
    captures of the other protocols (tests/synth.py). */
module CleanProtocols {
  import opened Numbers
  import opened Results
  import opened Signals
  import opened Smoke
  import opened PulseLengths
  import AutoBaud
  import CleanUart
  import Spi
  import I2c
  import Ws2812
  import Dshot

  // ---------------------------------------------------------------------------------------
  // Silence on an arbitrary signal
  // ---------------------------------------------------------------------------------------

  /** No two level changes are within two samples of each other. */
  ghost predicate Quiet(c: seq<bool>) {
    forall i, j :: IsEdge(c, i) && IsEdge(c, j) && i < j ==> j - i > RUNT_MAX_SAMPLES
  }

  lemma {:induction false} QuietExactly(c: seq<bool>, channel: string)
    ensures RuntPulses(Edges(c), channel) == [] <==> Quiet(c)
  {
    hide RuntPulses, Edges, IsEdge;
    var edges := Edges(c);
    EdgesExact(c);
    CleanUart.RuntsExactly(edges, channel);
    if Quiet(c) {
      forall p | 0 <= p < |Intervals(edges)| ensures Intervals(edges)[p] >= RUNT_MAX_SAMPLES + 1 {
        IntervalAt(edges, p);
        EdgeAt(c, edges, p);
        EdgeAt(c, edges, p + 1);
      }
    }
    if CleanUart.AllAtLeast(Intervals(edges), RUNT_MAX_SAMPLES + 1) {
      forall i, j | IsEdge(c, i) && IsEdge(c, j) && i < j ensures j - i > RUNT_MAX_SAMPLES {
        WideApart(c, edges, i, j);
      }
    }
  }

  lemma {:induction false} WideApart(c: seq<bool>, edges: seq<Edge>, i: int, j: int)
    requires AreEdges(c, edges) && IsEdge(c, i) && IsEdge(c, j) && i < j
    requires CleanUart.AllAtLeast(Intervals(edges), RUNT_MAX_SAMPLES + 1)
    ensures j - i > RUNT_MAX_SAMPLES
  {
    hide IsEdge, Intervals;
    var p := FindEdge(c, edges, i);
    var q := FindEdge(c, edges, j);
    hide AreEdges;
    NextEdge(edges, p, q);
    IntervalAt(edges, p);
  }

  lemma NextEdge(edges: seq<Edge>, p: nat, q: nat)
    requires Increasing(edges) && p < |edges| && q < |edges| && edges[p].index < edges[q].index
    ensures p + 1 < |edges| && edges[p + 1].index <= edges[q].index
  {
  }

  /** No run between the first and the last is short. */
  ghost predicate WideInside(runs: seq<Segment>) {
    forall k :: 1 <= k < |runs| - 1 ==> runs[k].count > RUNT_MAX_SAMPLES
  }

  lemma {:induction false} RunsDecide(c: seq<bool>, channel: string)
    ensures RuntPulses(Edges(c), channel) == [] <==> WideInside(ChannelToSegments(c))
  {
    hide RuntPulses, Edges, ChannelToSegments;
    CleanUart.RuntsExactly(Edges(c), channel);
    if c == [] {
      NothingInside(c);
    } else {
      OneRunPerEdge(c);
      forall p | 0 <= p < |Edges(c)| - 1
        ensures |Intervals(Edges(c))| == |Edges(c)| - 1 && Intervals(Edges(c))[p] == ChannelToSegments(c)[p + 1].count
      {
        IntervalAt(Edges(c), p);
        Ws2812.RunBetween(c, p);
      }
      InsideAreIntervals(ChannelToSegments(c), Intervals(Edges(c)));
    }
  }

  lemma NothingInside(c: seq<bool>)
    requires c == []
    ensures Intervals(Edges(c)) == [] && ChannelToSegments(c) == []
  {
  }

  lemma {:induction false} InsideAreIntervals(runs: seq<Segment>, intervals: seq<int>)
    requires |intervals| == Max(|runs| - 2, 0)
    requires forall p :: 0 <= p < |intervals| ==> intervals[p] == runs[p + 1].count
    ensures CleanUart.AllAtLeast(intervals, RUNT_MAX_SAMPLES + 1) <==> WideInside(runs)
  {
    forall k | 1 <= k < |runs| - 1 ensures runs[k].count == intervals[k - 1] {
    }
  }

  // ---------------------------------------------------------------------------------------
  // SPI
  // ---------------------------------------------------------------------------------------

  lemma {:induction false} WideCellsAreQuiet(levels: seq<bool>, cell: nat)
    requires cell > RUNT_MAX_SAMPLES
    ensures Quiet(Stretch(levels, cell))
  {
    hide Quiet, Edges, Stretch;
    CleanUart.WholeBits(levels, cell);
    CleanUart.RuntsExactly(Edges(Stretch(levels, cell)), "");
    QuietExactly(Stretch(levels, cell), "");
  }

  lemma {:induction false} LoneCellIsRunt(levels: seq<bool>, cell: nat, j: int)
    requires 1 <= cell <= RUNT_MAX_SAMPLES && AutoBaud.LoneCell(levels, j)
    ensures !Quiet(Stretch(levels, cell))
  {
    hide Stretch;
    StretchCell(levels, cell, j - 1, cell - 1);
    StretchCell(levels, cell, j, 0);
    StretchCell(levels, cell, j, cell - 1);
    StretchCell(levels, cell, j + 1, 0);
    MulSucc(j - 1, cell);
    MulSucc(j, cell);
    assert IsEdge(Stretch(levels, cell), j * cell);
    assert IsEdge(Stretch(levels, cell), (j + 1) * cell);
  }

  /** The active half of the first bit stands alone. */
  lemma {:induction false} ClockHasLoneCell(bits: seq<bool>, mode: Spi.Mode) returns (j: int)
    requires bits != []
    ensures AutoBaud.LoneCell(Spi.Framed(mode.cpol, mode.cpol, Spi.ClockCells(bits, mode)), j)
  {
    var cells := Spi.ClockCells(bits, mode);
    assert cells == Spi.ClockPair(mode) + Spi.ClockCells(bits[1..], mode);
    var levels := Spi.Framed(mode.cpol, mode.cpol, cells);
    if mode.cpha {
      j := 6;
      assert levels[5] == mode.cpol && levels[6] == cells[0] && levels[7] == cells[1];
    } else {
      j := 7;
      assert levels[6] == cells[0] && levels[7] == cells[1] && levels[8] == mode.cpol;
    }
  }

  lemma {:induction false} DelayedIsQuiet(first: bool, c: seq<bool>)
    requires Quiet(c) && (c != [] ==> c[0] == first)
    ensures Quiet(Spi.Delayed(first, c))
  {
    forall i | IsEdge(Spi.Delayed(first, c), i) ensures IsEdge(c, i - 1) {
    }
  }

  /** Whatever the payload and the mode, a generated SPI capture is silent on all three lines
      exactly when a half period lasts at least three samples. */
  lemma {:induction false} SpiIsQuietExactly(g: Spi.Generator, sck: string, mosi: string, cs: string)
    requires g.speed != 0
    ensures g.Signal().Ok?
    ensures var waves := g.Signal().value;
      RuntPulses(Edges(waves.sck), sck) == [] && RuntPulses(Edges(waves.mosi), mosi) == []
      && RuntPulses(Edges(waves.cs), cs) == []
      <==> g.HalfPeriod() >= 3
  {
    hide Quiet, Edges, Stretch, Spi.Framed, Spi.ClockCells, Spi.DataCells, Spi.Delayed, RuntPulses, PayloadBits;
    var waves, bits, half := g.Signal().value, PayloadBits(g.Payload()), g.HalfPeriod();
    PayloadBitsLength(g.Payload());
    QuietExactly(waves.sck, sck);
    QuietExactly(waves.mosi, mosi);
    QuietExactly(waves.cs, cs);
    if half >= 3 {
      WideCellsAreQuiet(Spi.Framed(g.mode.cpol, g.mode.cpol, Spi.ClockCells(bits, g.mode)), half);
      WideCellsAreQuiet(Spi.Framed(false, false, Spi.DataCells(bits)), half);
      WideCellsAreQuiet(Spi.Framed(true, false, Fill(false, 2 * |bits|)), half);
      Spi.FirstLow(bits, half);
      DelayedIsQuiet(false, Stretch(Spi.Framed(false, false, Spi.DataCells(bits)), half));
    } else {
      var j := ClockHasLoneCell(bits, g.mode);
      LoneCellIsRunt(Spi.Framed(g.mode.cpol, g.mode.cpol, Spi.ClockCells(bits, g.mode)), half, j);
    }
  }

  // ---------------------------------------------------------------------------------------
  // WS2812
  // ---------------------------------------------------------------------------------------

  /** Every high phase is wide, and every low phase but the last, which the reset prolongs. */
  predicate WidePhases(highs: seq<int>, period: int) {
    && (forall b :: 0 <= b < |highs| ==> highs[b] > RUNT_MAX_SAMPLES)
    && (forall b :: 0 <= b < |highs| - 1 ==> period - highs[b] > RUNT_MAX_SAMPLES)
  }

  /** The runs of a train: the lead, then a high and a low phase for every bit. */
  lemma {:induction false} TrainRuns(cells: Ws2812.Cells, bits: seq<bool>, b: nat)
    requires b < |bits|
    ensures var train := cells.Train(bits);
      && |train| == 2 * |bits| + 1
      && train[2 * b + 1] == Segment(true, cells.High(bits[b]))
      && train[2 * b + 2] == Segment(false, cells.period - cells.High(bits[b]))
  {
    var n := |bits| - 1;
    if n > 0 {
      TrainRuns(cells, bits[..n], if b < n then b else 0);
    }
  }

  lemma {:induction false} TrainIsWideExactly(cells: Ws2812.Cells, bits: seq<bool>, runs: seq<Segment>)
    requires bits != [] && |runs| == |cells.Train(bits)|
    requires forall k :: 0 <= k < |runs| - 1 ==> runs[k] == cells.Train(bits)[k]
    ensures WideInside(runs) <==> WidePhases(cells.Highs(bits), cells.period)
  {
    hide Ws2812.Cells.Train;
    forall b | 0 <= b < |bits|
      ensures |cells.Train(bits)| == 2 * |bits| + 1
      ensures cells.Train(bits)[2 * b + 1].count == cells.High(bits[b])
      ensures cells.Train(bits)[2 * b + 2].count == cells.period - cells.High(bits[b])
    {
      TrainRuns(cells, bits, b);
    }
    TrainRuns(cells, bits, 0);
    if WideInside(runs) {
      forall b | 0 <= b < |bits| ensures cells.High(bits[b]) > RUNT_MAX_SAMPLES {
        assert runs[2 * b + 1].count > RUNT_MAX_SAMPLES;
      }
      forall b | 0 <= b < |bits| - 1 ensures cells.period - cells.High(bits[b]) > RUNT_MAX_SAMPLES {
        assert runs[2 * b + 2].count > RUNT_MAX_SAMPLES;
      }
    }
    if WidePhases(cells.Highs(bits), cells.period) {
      forall k | 1 <= k < |runs| - 1 ensures runs[k].count > RUNT_MAX_SAMPLES {
        var b := (k - 1) / 2;
        assert k == 2 * b + 1 || k == 2 * b + 2;
        assert cells.Highs(bits)[b] > RUNT_MAX_SAMPLES;
      }
    }
  }

  lemma {:induction false} TrainIsQuietExactly(cells: Ws2812.Cells, bits: seq<bool>, channel: string)
    requires bits != [] && cells.Distinct()
    ensures RuntPulses(Edges(Expand(cells.Train(bits) + [Segment(false, cells.reset)])), channel) == []
       <==> WidePhases(cells.Highs(bits), cells.period)
  {
    hide Ws2812.Cells.Train, RuntPulses, Edges, Expand, ChannelToSegments, Coalesced, Coalesce, WideInside,
      Ws2812.PulsesOf, WidePhases, Ws2812.Cells.Highs;
    var train, reset := cells.Train(bits), Segment(false, cells.reset);
    RunsDecide(Expand(train + [reset]), channel);
    Ws2812.TrainShape(cells, bits);
    EncodeExpand(train + [reset]);
    CoalesceCoalesced(train);
    CoalesceSnoc(train, reset);
    TrainIsWideExactly(cells, bits, Push(train, reset));
  }

  /** A generated WS2812 capture is silent exactly when every high phase of its bits, and every
      low phase but the last, lasts at least three samples. */
  lemma {:induction false} Ws2812IsQuietExactly(g: Ws2812.Generator, channel: string)
    requires g.sampleRate != 0 && Ws2812.CellsAt(g.sampleRate).Distinct()
    ensures RuntPulses(Edges(g.Signal().value), channel) == []
       <==> WidePhases(Ws2812.CellsAt(g.sampleRate).Highs(PayloadBits(g.Payload())),
                       Ws2812.CellsAt(g.sampleRate).period)
  {
    hide Ws2812.CellsAt, PayloadBits, RuntPulses, Edges, Expand, WidePhases;
    PayloadBitsLength(g.Payload());
    TrainIsQuietExactly(Ws2812.CellsAt(g.sampleRate), PayloadBits(g.Payload()), channel);
  }

  // ---------------------------------------------------------------------------------------
  // Runs that grow segment by segment
  // ---------------------------------------------------------------------------------------

  function LastOf(runs: seq<Segment>): Segment
    requires runs != []
  {
    runs[|runs| - 1]
  }

  /** The last run may be followed by another level. */
  predicate MayEnd(runs: seq<Segment>)
    requires runs != []
  {
    |runs| == 1 || LastOf(runs).count > RUNT_MAX_SAMPLES
  }

  lemma {:induction false} PushWideExactly(runs: seq<Segment>, s: Segment)
    requires runs != [] && s.count > 0
    ensures WideInside(Push(runs, s)) <==> WideInside(runs) && (s.level == LastOf(runs).level || MayEnd(runs))
    ensures Push(runs, s) != [] && LastOf(Push(runs, s)).level == s.level
    ensures if s.level == LastOf(runs).level
      then |Push(runs, s)| == |runs| && LastOf(Push(runs, s)).count == LastOf(runs).count + s.count
      else |Push(runs, s)| == |runs| + 1 && LastOf(Push(runs, s)).count == s.count
  {
    var pushed, n := Push(runs, s), |runs|;
    forall k | 1 <= k < n - 1 ensures pushed[k] == runs[k] {
    }
    if s.level != LastOf(runs).level && WideInside(pushed) && n > 1 {
      assert pushed[n - 1].count > RUNT_MAX_SAMPLES;
    }
  }

  // ---------------------------------------------------------------------------------------
  // DShot
  // ---------------------------------------------------------------------------------------

  /** The runs of a capture after one more frame's bits. */
  lemma {:induction false} FrameIsWideExactly(before: seq<Segment>, cells: Dshot.Cells, bits: seq<bool>)
    requires Dshot.Phased(cells) && bits != []
    requires Coalesce(before) != [] && !LastOf(Coalesce(before)).level
    ensures var after := Coalesce(before + cells.Bits(bits));
      && |after| > 1 && LastOf(after) == Segment(false, cells.period - cells.High(bits[|bits| - 1]))
      && (WideInside(after) <==>
          WideInside(Coalesce(before)) && MayEnd(Coalesce(before)) &&
          WidePhases(Dshot.NominalHighs(cells, bits), cells.period))
  {
    hide Coalesce, Push, WideInside, WidePhases, Dshot.NominalHighs;
    var n := |bits| - 1;
    var front := before + cells.Bits(bits[..n]);
    var high, low := Segment(true, cells.High(bits[n])), Segment(false, cells.period - cells.High(bits[n]));
    assert before + cells.Bits(bits) == front + [high] + [low];
    CoalesceSnoc(front, high);
    CoalesceSnoc(front + [high], low);
    if n == 0 {
      assert front == before;
    } else {
      FrameIsWideExactly(before, cells, bits[..n]);
    }
    PushWideExactly(Coalesce(front), high);
    PushWideExactly(Push(Coalesce(front), high), low);
    PhasesSnoc(cells, bits);
  }

  lemma {:induction false} PhasesSnoc(cells: Dshot.Cells, bits: seq<bool>)
    requires bits != []
    ensures var n := |bits| - 1;
      WidePhases(Dshot.NominalHighs(cells, bits), cells.period) <==>
      && (n > 0 ==> WidePhases(Dshot.NominalHighs(cells, bits[..n]), cells.period)
                    && cells.period - cells.High(bits[n - 1]) > RUNT_MAX_SAMPLES)
      && cells.High(bits[n]) > RUNT_MAX_SAMPLES
  {
    var n, highs := |bits| - 1, Dshot.NominalHighs(cells, bits);
    assert highs[n] == cells.High(bits[n]);
    if n > 0 {
      assert highs[n - 1] == cells.High(bits[n - 1]);
      var before := Dshot.NominalHighs(cells, bits[..n]);
      assert forall b :: 0 <= b < n ==> before[b] == highs[b];
    }
  }

  /** Every frame is wide, and so are the lows between frames, which the gap prolongs. */
  predicate WideFrames(cells: Dshot.Cells, bits: seq<bool>, repeats: nat)
    requires bits != []
  {
    && (repeats >= 1 ==> WidePhases(Dshot.NominalHighs(cells, bits), cells.period))
    && (repeats >= 2 ==> cells.period - cells.High(bits[|bits| - 1]) + cells.gap > RUNT_MAX_SAMPLES)
  }

  lemma {:induction false} DshotRuns(cells: Dshot.Cells, bits: seq<bool>, repeats: nat)
    requires Dshot.Separate(cells) && bits != []
    ensures var runs := Coalesce(cells.Train(bits, repeats));
      && runs != [] && !LastOf(runs).level
      && (|runs| == 1 <==> repeats == 0)
      && (repeats > 0 ==> LastOf(runs).count == cells.period - cells.High(bits[|bits| - 1]) + cells.gap)
      && (WideInside(runs) <==> WideFrames(cells, bits, repeats))
  {
    hide Coalesce, Push, WideInside, WidePhases, Dshot.NominalHighs, Dshot.Cells.Bits;
    var gap := Segment(false, cells.gap);
    if repeats == 0 {
      OneRun(gap);
    } else {
      var before := cells.Train(bits, repeats - 1);
      DshotRuns(cells, bits, repeats - 1);
      FrameIsWideExactly(before, cells, bits);
      CoalesceSnoc(before + cells.Bits(bits), gap);
      PushWideExactly(Coalesce(before + cells.Bits(bits)), gap);
    }
  }

  lemma {:induction false} OneRun(s: Segment)
    requires s.count > 0
    ensures Coalesce([s]) == [s] && WideInside([s])
  {
    assert [s][..0] == [];
  }

  /** A generated DShot capture is silent exactly when its frames are wide. */
  lemma {:induction false} DshotIsQuietExactly(g: Dshot.Generator, timing: Dshot.Timing, channel: string)
    requires Dshot.TimingOf(g.rate) == Some(timing) && 0 <= g.value <= Dshot.MAX_VALUE && g.sampleRate != 0
    requires Dshot.Separate(Dshot.CellsAt(timing, g.sampleRate))
    ensures g.Signal().Ok?
    ensures var bits := BitsMsb(Dshot.Frame(g.value, g.telemetry), Dshot.FRAME_BITS);
      bits != []
      && (RuntPulses(Edges(g.Signal().value), channel) == []
          <==> WideFrames(Dshot.CellsAt(timing, g.sampleRate), bits, Max(0, g.repeats)))
  {
    hide RuntPulses, Edges, Expand, ChannelToSegments, Coalesce, WideInside, WideFrames, Dshot.Separate, Dshot.CellsAt,
      Dshot.Cells.Train, Dshot.Frame;
    var cells, bits := Dshot.CellsAt(timing, g.sampleRate),
      BitsMsb(Dshot.Frame(g.value, g.telemetry), Dshot.FRAME_BITS);
    RunsDecide(g.Signal().value, channel);
    EncodeExpand(cells.Train(bits, Max(0, g.repeats)));
    DshotRuns(cells, bits, Max(0, g.repeats));
  }

  // ---------------------------------------------------------------------------------------
  // I2C
  // ---------------------------------------------------------------------------------------

  /** Nothing short so far, and the last run, unless it is the first, has at least this length. */
  ghost predicate Calm(runs: seq<Segment>, level: bool, least: int) {
    && runs != [] && WideInside(runs)
    && LastOf(runs).level == level
    && (|runs| == 1 || LastOf(runs).count >= least)
  }

  lemma {:induction false} CalmPush(runs: seq<Segment>, level: bool, least: int, next: bool, count: int)
    requires Calm(runs, level, least) && count > 0 && (level == next || least > RUNT_MAX_SAMPLES)
    ensures Calm(Push(runs, Segment(next, count)), next, if level == next then least + count else count)
  {
    hide Push, WideInside;
    PushWideExactly(runs, Segment(next, count));
  }

  /** Both lines so far. */
  ghost predicate LinesCalm(phases: seq<I2c.Phase>, scl: bool, sclLeast: int, sda: bool, sdaLeast: int) {
    && Calm(Coalesce(I2c.SclOf(phases)), scl, sclLeast)
    && Calm(Coalesce(I2c.SdaOf(phases)), sda, sdaLeast)
  }

  lemma {:induction false} PhaseCalm(phases: seq<I2c.Phase>, scl: bool, sclLeast: int, sda: bool, sdaLeast: int,
                                     p: I2c.Phase)
    requires LinesCalm(phases, scl, sclLeast, sda, sdaLeast) && p.count > 0
    requires (scl == p.scl || sclLeast > RUNT_MAX_SAMPLES) && (sda == p.sda || sdaLeast > RUNT_MAX_SAMPLES)
    ensures LinesCalm(phases + [p], p.scl, if scl == p.scl then sclLeast + p.count else p.count,
                      p.sda, if sda == p.sda then sdaLeast + p.count else p.count)
  {
    hide Calm, Push, Coalesce;
    assert I2c.SclOf(phases + [p]) == I2c.SclOf(phases) + [Segment(p.scl, p.count)];
    assert I2c.SdaOf(phases + [p]) == I2c.SdaOf(phases) + [Segment(p.sda, p.count)];
    CoalesceSnoc(I2c.SclOf(phases), Segment(p.scl, p.count));
    CoalesceSnoc(I2c.SdaOf(phases), Segment(p.sda, p.count));
    CalmPush(Coalesce(I2c.SclOf(phases)), scl, sclLeast, p.scl, p.count);
    CalmPush(Coalesce(I2c.SdaOf(phases)), sda, sdaLeast, p.sda, p.count);
  }

  lemma LessCalm(phases: seq<I2c.Phase>, scl: bool, m: int, m': int, sda: bool, n: int, n': int)
    requires LinesCalm(phases, scl, m, sda, n) && m' <= m && n' <= n
    ensures LinesCalm(phases, scl, m', sda, n')
  {
  }

  lemma {:induction false} BitCalm(phases: seq<I2c.Phase>, sda: bool, value: bool, q: int)
    requires q >= 2 && LinesCalm(phases, false, q, sda, 3 * q)
    ensures LinesCalm(phases + I2c.BitPhases(value, q), false, q, value, 3 * q)
  {
    hide LinesCalm;
    var a, b, c := I2c.Phase(false, value, q), I2c.Phase(true, value, q * 2), I2c.Phase(false, value, q);
    var n := if sda == value then 3 * q + q else q;
    PhaseCalm(phases, false, q, sda, 3 * q, a);
    PhaseCalm(phases + [a], false, 2 * q, value, n, b);
    PhaseCalm(phases + [a] + [b], true, 2 * q, value, n + 2 * q, c);
    assert phases + [a] + [b] + [c] == phases + I2c.BitPhases(value, q);
    LessCalm(phases + [a] + [b] + [c], false, q, q, value, n + 3 * q, 3 * q);
  }

  lemma {:induction false} BitsCalm(phases: seq<I2c.Phase>, sda: bool, bits: seq<bool>, q: int)
    requires q >= 2 && LinesCalm(phases, false, q, sda, 3 * q)
    ensures LinesCalm(phases + I2c.BitsPhases(bits, q), false, q, if bits == [] then sda else bits[|bits| - 1], 3 * q)
  {
    hide LinesCalm;
    if bits == [] {
      assert phases + I2c.BitsPhases(bits, q) == phases;
    } else {
      var n := |bits| - 1;
      BitsCalm(phases, sda, bits[..n], q);
      var before := phases + I2c.BitsPhases(bits[..n], q);
      BitCalm(before, if n == 0 then sda else bits[n - 1], bits[n], q);
      assert phases + I2c.BitsPhases(bits, q) == before + I2c.BitPhases(bits[n], q);
    }
  }

  /** An acknowledged byte leaves both lines low. */
  lemma {:induction false} ByteCalm(phases: seq<I2c.Phase>, value: int, stretch: int, q: int)
    requires q >= 2 && stretch >= 0 && LinesCalm(phases, false, q, false, 3 * q)
    ensures LinesCalm(phases + I2c.Phases(I2c.Byte(value, true, stretch), q), false, q, false, 3 * q)
  {
    hide LinesCalm, I2c.BitsPhases;
    var bits := BitsMsb(value, 8) + [false];
    BitsCalm(phases, false, bits, q);
    var after := phases + I2c.BitsPhases(bits, q);
    if stretch == 0 {
      assert after + [] == after;
      assert phases + (I2c.BitsPhases(bits, q) + []) == after;
    } else {
      var hold := I2c.Phase(false, false, stretch);
      PhaseCalm(after, false, q, false, 3 * q, hold);
      LessCalm(after + [hold], false, q + stretch, q, false, 3 * q + stretch, 3 * q);
      assert phases + (I2c.BitsPhases(bits, q) + [hold]) == after + [hold];
    }
  }

  lemma {:induction false} PayloadCalm(calls: seq<I2c.Call>, payload: seq<int>, stretch: int, q: int)
    requires q >= 2 && stretch >= 0 && LinesCalm(I2c.Script(calls, q), false, q, false, 3 * q)
    ensures LinesCalm(I2c.Script(calls + I2c.PayloadCalls(payload, stretch), q), false, q, false, 3 * q)
  {
    hide LinesCalm, I2c.Script, I2c.Phases;
    if payload == [] {
      assert calls + I2c.PayloadCalls(payload, stretch) == calls;
    } else {
      var n := |payload| - 1;
      var before := calls + I2c.PayloadCalls(payload[..n], stretch);
      PayloadCalm(calls, payload[..n], stretch, q);
      I2c.PayloadCallsSnoc(calls, payload, stretch);
      I2c.ScriptSnoc(before, I2c.Byte(payload[n], true, stretch), q);
      ByteCalm(I2c.Script(before, q), payload[n], stretch, q);
    }
  }

  /** From the idle line through the start condition. */
  lemma {:induction false} StartCalm(q: int)
    requires q >= 2
    ensures LinesCalm(I2c.Script([I2c.Idle(q * 4), I2c.Start], q), false, q, false, 3 * q)
  {
    hide LinesCalm;
    var idle := I2c.Phase(true, true, q * 4);
    var a, b, c := I2c.Phase(true, true, q), I2c.Phase(true, false, q), I2c.Phase(false, false, q * 2);
    IdleCalm(idle, q);
    PhaseCalm([idle], true, 4 * q, true, 4 * q, a);
    PhaseCalm([idle] + [a], true, 5 * q, true, 5 * q, b);
    PhaseCalm([idle] + [a] + [b], true, 6 * q, false, q, c);
    LessCalm([idle] + [a] + [b] + [c], false, 2 * q, q, false, 3 * q, 3 * q);
    I2c.StartScript(q);
    assert [idle] + [a] + [b] + [c] == [idle, a, b, c];
  }

  lemma {:induction false} IdleCalm(idle: I2c.Phase, q: int)
    requires q >= 1 && idle == I2c.Phase(true, true, q * 4)
    ensures LinesCalm([idle], true, 4 * q, true, 4 * q)
  {
    assert I2c.SclOf([idle]) == [Segment(true, q * 4)] && I2c.SdaOf([idle]) == [Segment(true, q * 4)];
    OneRun(Segment(true, q * 4));
  }

  lemma {:induction false} StopCalm(calls: seq<I2c.Call>, q: int)
    requires q >= 2 && LinesCalm(I2c.Script(calls, q), false, q, false, 3 * q)
    ensures LinesCalm(I2c.Script(calls + [I2c.Stop] + [I2c.Idle(q * 4)], q), true, 7 * q, true, 5 * q)
  {
    hide LinesCalm, I2c.Script;
    var phases := I2c.Script(calls, q);
    var a, b, c := I2c.Phase(false, false, q), I2c.Phase(true, false, q * 2), I2c.Phase(true, true, q);
    var idle := I2c.Phase(true, true, q * 4);
    I2c.ScriptSnoc(calls, I2c.Stop, q);
    I2c.ScriptSnoc(calls + [I2c.Stop], I2c.Idle(q * 4), q);
    PhaseCalm(phases, false, q, false, 3 * q, a);
    PhaseCalm(phases + [a], false, 2 * q, false, 4 * q, b);
    PhaseCalm(phases + [a] + [b], true, 2 * q, false, 6 * q, c);
    PhaseCalm(phases + [a] + [b] + [c], true, 3 * q, true, q, idle);
    assert phases + [a] + [b] + [c] == phases + [a, b, c];
  }

  /** Quarter periods of two samples keep every interior run wide. */
  lemma {:induction false} TransactionCalm(g: I2c.Generator, q: int)
    requires q >= 2
    ensures LinesCalm(I2c.Script(g.Calls(q), q), true, 7 * q, true, 5 * q)
  {
    hide LinesCalm, I2c.Script;
    var stretch := if g.stretching then q * 2 else 0;
    var address := I2c.Byte(g.address % 0x80 * 2 + g.rw % 2, true, stretch);
    var head := [I2c.Idle(q * 4), I2c.Start];
    StartCalm(q);
    I2c.ScriptSnoc(head, address, q);
    ByteCalm(I2c.Script(head, q), g.address % 0x80 * 2 + g.rw % 2, stretch, q);
    PayloadCalm(head + [address], g.Payload(), stretch, q);
    StopCalm(head + [address] + I2c.PayloadCalls(g.Payload(), stretch), q);
    assert g.Calls(q) == head + [address] + I2c.PayloadCalls(g.Payload(), stretch) + [I2c.Stop] + [I2c.Idle(q * 4)];
  }

  // --- quarter periods of one sample

  lemma {:induction false} StartRuns(q: int)
    requires q >= 1
    ensures var runs := Coalesce(I2c.SclOf(I2c.Script([I2c.Idle(q * 4), I2c.Start], q)));
      |runs| == 2 && !LastOf(runs).level
  {
    hide Push, Coalesce;
    var idle, a, b, c := Segment(true, q * 4), Segment(true, q), Segment(true, q), Segment(false, q * 2);
    I2c.StartScript(q);
    assert I2c.SclOf(I2c.Script([I2c.Idle(q * 4), I2c.Start], q)) == [idle] + [a] + [b] + [c];
    OneRun(idle);
    CoalesceSnoc([idle], a);
    CoalesceSnoc([idle] + [a], b);
    CoalesceSnoc([idle] + [a] + [b], c);
    PushWideExactly(Coalesce([idle]), a);
    PushWideExactly(Coalesce([idle] + [a]), b);
    PushWideExactly(Coalesce([idle] + [a] + [b]), c);
  }

  /** The clock pulse of the next bit is two samples wide. */
  lemma {:induction false} BitIsNarrow(phases: seq<I2c.Phase>, value: bool)
    requires |Coalesce(I2c.SclOf(phases))| >= 2 && !LastOf(Coalesce(I2c.SclOf(phases))).level
    ensures Coalesce(I2c.SclOf(phases + I2c.BitPhases(value, 1))) != []
    ensures !WideInside(Coalesce(I2c.SclOf(phases + I2c.BitPhases(value, 1))))
  {
    hide Push, Coalesce, WideInside;
    var segments, a, b, c := I2c.SclOf(phases), Segment(false, 1), Segment(true, 2), Segment(false, 1);
    assert I2c.SclOf(phases + I2c.BitPhases(value, 1)) == segments + [a] + [b] + [c];
    CoalesceSnoc(segments, a);
    CoalesceSnoc(segments + [a], b);
    CoalesceSnoc(segments + [a] + [b], c);
    PushWideExactly(Coalesce(segments), a);
    PushWideExactly(Coalesce(segments + [a]), b);
    PushWideExactly(Coalesce(segments + [a] + [b]), c);
  }

  /** A short run stays short whatever follows. */
  lemma {:induction false} NarrowStays(segments: seq<Segment>, more: seq<Segment>)
    requires Coalesce(segments) != [] && !WideInside(Coalesce(segments))
    ensures Coalesce(segments + more) != [] && !WideInside(Coalesce(segments + more))
  {
    hide Coalesce, WideInside;
    if more == [] {
      assert segments + more == segments;
    } else {
      var n := |more| - 1;
      NarrowStays(segments, more[..n]);
      assert segments + more == segments + more[..n] + [more[n]];
      CoalesceSnoc(segments + more[..n], more[n]);
      if more[n].count > 0 {
        PushWideExactly(Coalesce(segments + more[..n]), more[n]);
      }
    }
  }

  lemma {:induction false} BitsPhasesCons(bits: seq<bool>, q: int) returns (rest: seq<I2c.Phase>)
    requires bits != []
    ensures I2c.BitsPhases(bits, q) == I2c.BitPhases(bits[0], q) + rest
  {
    hide I2c.BitPhases;
    var n := |bits| - 1;
    if n == 0 {
      assert bits[..0] == [];
      rest := [];
    } else {
      var front := BitsPhasesCons(bits[..n], q);
      rest := front + I2c.BitPhases(bits[n], q);
    }
  }

  lemma {:induction false} TransactionBegins(g: I2c.Generator, q: int) returns (value: bool, rest: seq<I2c.Phase>)
    ensures I2c.Script(g.Calls(q), q)
         == I2c.Script([I2c.Idle(q * 4), I2c.Start], q) + I2c.BitPhases(value, q) + rest
  {
    hide I2c.Script, I2c.BitPhases, I2c.BitsPhases;
    var stretch := if g.stretching then q * 2 else 0;
    var address := I2c.Byte(g.address % 0x80 * 2 + g.rw % 2, true, stretch);
    var head := [I2c.Idle(q * 4), I2c.Start];
    var more := I2c.PayloadCalls(g.Payload(), stretch) + [I2c.Stop, I2c.Idle(q * 4)];
    assert g.Calls(q) == head + [address] + more;
    I2c.ScriptSnoc(head, address, q);
    I2c.ScriptConcat(head + [address], more, q);
    var bits := BitsMsb(address.value, 8) + [false];
    var tail := BitsPhasesCons(bits, q);
    var hold := if stretch != 0 then [I2c.Phase(false, false, stretch)] else [];
    assert I2c.Phases(address, q) == I2c.BitsPhases(bits, q) + hold;
    value, rest := bits[0], tail + hold + I2c.Script(more, q);
  }

  /** Whatever the address, the payload and the stretching, a generated I2C capture is silent on
      both lines exactly when a quarter period lasts at least two samples. */
  lemma {:induction false} I2cIsQuietExactly(g: I2c.Generator, q: int, scl: string, sda: string)
    requires q >= 1
    ensures var phases := I2c.Script(g.Calls(q), q);
      RuntPulses(Edges(Expand(I2c.SclOf(phases))), scl) == [] && RuntPulses(Edges(Expand(I2c.SdaOf(phases))), sda) == []
      <==> q >= 2
  {
    hide RuntPulses, Edges, Expand, ChannelToSegments, Coalesce, WideInside, I2c.Script, I2c.BitPhases;
    var phases := I2c.Script(g.Calls(q), q);
    RunsDecide(Expand(I2c.SclOf(phases)), scl);
    RunsDecide(Expand(I2c.SdaOf(phases)), sda);
    EncodeExpand(I2c.SclOf(phases));
    EncodeExpand(I2c.SdaOf(phases));
    if q >= 2 {
      TransactionCalm(g, q);
    } else {
      var head := I2c.Script([I2c.Idle(q * 4), I2c.Start], q);
      var value, rest := TransactionBegins(g, q);
      StartRuns(q);
      BitIsNarrow(head, value);
      NarrowStays(I2c.SclOf(head + I2c.BitPhases(value, q)), I2c.SclOf(rest));
      assert I2c.SclOf(phases) == I2c.SclOf(head + I2c.BitPhases(value, q)) + I2c.SclOf(rest);
    }
  }
}
