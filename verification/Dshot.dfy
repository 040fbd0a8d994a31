/** DShot: the frame generator (tests/synth.py), the frame decoder (src/slidko/measure/dshot.py)
    and the firmware's frame encoder (firmware/src/protocol/timing.c). */
module Dshot {
  import opened Numbers
  import opened Results
  import opened Signals
  import opened PulseLengths

  datatype Timing = Timing(periodNs: real, t0hNs: real, t1hNs: real)

  const GAP_NS := 2000.0
  const FRAME_BITS := 16
  const MAX_VALUE := 0x7FF

  datatype DshotError = UnsupportedRate | ValueTooWide | SampleRateIsZero

  /** `DSHOT_TIMING_NS`. */
  function TimingOf(rate: int): Option<Timing> {
    if rate == 150 then Some(Timing(6670.0, 2500.0, 5000.0))
    else if rate == 300 then Some(Timing(3330.0, 1250.0, 2500.0))
    else if rate == 600 then Some(Timing(1670.0, 625.0, 1250.0))
    else None
  }

  // ---------------------------------------------------------------------------------------
  // Frames as numbers
  // ---------------------------------------------------------------------------------------

  function Xor(a: nat, b: nat): nat
    decreases a + b
  {
    if a == 0 && b == 0 then 0 else 2 * Xor(a / 2, b / 2) + (a + b) % 2
  }

  /** `dshot_checksum`: the exclusive or of the low three nibbles. */
  function Checksum(data: nat): (crc: nat)
    ensures crc < 16
  {
    Xor(Xor(data, data / 16), data / 256) % 16
  }

  /** The throttle value, shifted, with the telemetry bit below it. */
  function Data(value: nat, telemetry: bool): nat {
    value * 2 + (if telemetry then 1 else 0)
  }

  function Frame(value: nat, telemetry: bool): nat {
    Data(value, telemetry) * 16 + Checksum(Data(value, telemetry))
  }

  datatype Reading = Reading(value: Option<int>, telemetry: bool, checksumOk: bool)

  /** What a 16-bit frame says. */
  function ReadingOf(frame: nat): Reading {
    var data := frame / 16;
    Reading(Some(data / 2), data % 2 == 1, Checksum(data) == frame % 16)
  }

  /** Reading a frame back gives its value and telemetry bit, with a good checksum. */
  lemma {:induction false} FrameRoundTrip(value: nat, telemetry: bool)
    ensures ReadingOf(Frame(value, telemetry)) == Reading(Some(value), telemetry, true)
    ensures value <= MAX_VALUE ==> Frame(value, telemetry) < Pow2(FRAME_BITS)
  {
    hide Checksum;
    var data, crc := Data(value, telemetry), Checksum(Data(value, telemetry));
    DivModUnique(Frame(value, telemetry), 16, data, crc);
    FramesFit();
  }

  lemma FramesFit()
    ensures Pow2(FRAME_BITS) == 65536
  {
    assert Pow2(1) == 2 && Pow2(2) == 4 && Pow2(3) == 8 && Pow2(4) == 16;
    assert Pow2(5) == 32 && Pow2(6) == 64 && Pow2(7) == 128 && Pow2(8) == 256;
    assert Pow2(9) == 512 && Pow2(10) == 1024 && Pow2(11) == 2048 && Pow2(12) == 4096;
    assert Pow2(13) == 8192 && Pow2(14) == 16384 && Pow2(15) == 32768;
  }

  // ---------------------------------------------------------------------------------------
  // Waveform
  // ---------------------------------------------------------------------------------------

  /** Sample counts at some rate. */
  datatype Cells = Cells(period: int, t0h: int, t1h: int, gap: int) {

    function High(bit: bool): int {
      if bit then t1h else t0h
    }

    function Cell(bit: bool): seq<Segment> {
      [Segment(true, High(bit)), Segment(false, period - High(bit))]
    }

    function Bits(bits: seq<bool>): seq<Segment> {
      if bits == [] then [] else Bits(bits[..|bits| - 1]) + Cell(bits[|bits| - 1])
    }

    /** The lead-in gap and `repeat` frames, a gap behind each. */
    function Train(bits: seq<bool>, repeats: nat): seq<Segment> {
      if repeats == 0 then [Segment(false, gap)]
      else Train(bits, repeats - 1) + Bits(bits) + [Segment(false, gap)]
    }
  }

  function CellsAt(timing: Timing, sampleRate: int): Cells
    requires sampleRate != 0
  {
    Cells(Samples(timing.periodNs, sampleRate), Samples(timing.t0hNs, sampleRate),
          Samples(timing.t1hNs, sampleRate), Samples(GAP_NS, sampleRate))
  }

  datatype Generator = Generator(rate: int, value: int, telemetry: bool, repeats: int, sampleRate: int) {

    /** What construction and `generate` promise. */
    function Signal(): Result<seq<bool>, DshotError> {
      match TimingOf(rate)
      case None => Err(UnsupportedRate)
      case Some(timing) =>
        if !(0 <= value <= MAX_VALUE) then Err(ValueTooWide)
        else if sampleRate == 0 then Err(SampleRateIsZero)
        else Ok(Expand(CellsAt(timing, sampleRate).Train(BitsMsb(Frame(value, telemetry), FRAME_BITS),
                                                         Max(0, repeats))))
    }

    method Generate() returns (r: Result<seq<bool>, DshotError>)
      ensures r == Signal()
    {
      var timing := TimingOf(rate);
      if timing.None? {
        return Err(UnsupportedRate);
      }
      if !(0 <= value <= MAX_VALUE) {
        return Err(ValueTooWide);
      }
      if sampleRate == 0 {
        return Err(SampleRateIsZero);
      }
      var cells := CellsAt(timing.value, sampleRate);
      var bits := BitsMsb(Frame(value, telemetry), FRAME_BITS);
      var segments := [Segment(false, cells.gap)];
      for i := 0 to Max(0, repeats)
        invariant segments == cells.Train(bits, i)
      {
        var frame := FrameCells(cells, bits);
        segments := segments + frame;
        segments := segments + [Segment(false, cells.gap)];
      }
      return Ok(Expand(segments));
    }
  }

  /** The inner loop of `generate`. */
  method FrameCells(cells: Cells, bits: seq<bool>) returns (segments: seq<Segment>)
    ensures segments == cells.Bits(bits)
  {
    hide Cells.Bits;
    segments := [];
    BitsEmpty(cells, bits);
    for i := 0 to |bits|
      invariant segments == cells.Bits(bits[..i])
    {
      BitsSnoc(cells, bits, i);
      ghost var start := segments;
      if bits[i] {
        segments := segments + [Segment(true, cells.t1h)];
        segments := segments + [Segment(false, cells.period - cells.t1h)];
      } else {
        segments := segments + [Segment(true, cells.t0h)];
        segments := segments + [Segment(false, cells.period - cells.t0h)];
      }
      assert segments == start + cells.Cell(bits[i]);
    }
    assert bits[..|bits|] == bits;
  }

  lemma {:induction false} BitsEmpty(cells: Cells, bits: seq<bool>)
    ensures cells.Bits(bits[..0]) == []
  {
  }

  lemma {:induction false} BitsSnoc(cells: Cells, bits: seq<bool>, i: nat)
    requires i < |bits|
    ensures cells.Bits(bits[..i + 1]) == cells.Bits(bits[..i]) + cells.Cell(bits[i])
  {
    assert bits[..i + 1][..i] == bits[..i];
  }

  // ---------------------------------------------------------------------------------------
  // Decoder
  // ---------------------------------------------------------------------------------------

  /** A pulse counts as a one when it lasts longer than halfway between the nominal times. */
  predicate Long(high: int, timing: Timing, sampleRate: int)
    requires sampleRate != 0
  {
    high as real * (1000000000.0 / sampleRate as real) > (timing.t0hNs + timing.t1hNs) / 2.0
  }

  function BitsRead(highs: seq<int>, timing: Timing, sampleRate: int): seq<bool>
    requires sampleRate != 0
  {
    seq(|highs|, i requires 0 <= i < |highs| => Long(highs[i], timing, sampleRate))
  }

  /** What `decode_frame` promises. */
  function Decoded(c: seq<bool>, sampleRate: int, rate: int): Result<Reading, DshotError> {
    match TimingOf(rate)
    case None => Err(UnsupportedRate)
    case Some(timing) =>
      if sampleRate == 0 then Err(SampleRateIsZero)
      else
        var highs := HighPulses(c);
        if |highs| < FRAME_BITS then Ok(Reading(None, false, false))
        else Ok(ReadingOf(ValueMsb(BitsRead(highs[..FRAME_BITS], timing, sampleRate))))
  }

  method DecodeFrame(c: seq<bool>, sampleRate: int, rate: int) returns (r: Result<Reading, DshotError>)
    ensures r == Decoded(c, sampleRate, rate)
  {
    var timing := TimingOf(rate);
    if timing.None? {
      return Err(UnsupportedRate);
    }
    if sampleRate == 0 {
      return Err(SampleRateIsZero);
    }
    var highs := MeasureHighPulses(c);
    if |highs| < FRAME_BITS {
      return Ok(Reading(None, false, false));
    }
    var frame := ShiftIn(BitsRead(highs[..FRAME_BITS], timing.value, sampleRate));
    return Ok(ReadingOf(frame));
  }

  // ---------------------------------------------------------------------------------------
  // The pulses of a generated frame
  // ---------------------------------------------------------------------------------------

  /** Both phases of either cell last at least one sample. */
  ghost predicate Phased(cells: Cells) {
    1 <= cells.t0h < cells.period && 1 <= cells.t1h < cells.period
  }

  ghost predicate Separate(cells: Cells) {
    cells.gap >= 1 && Phased(cells)
  }

  function NominalHighs(cells: Cells, bits: seq<bool>): seq<int> {
    seq(|bits|, i requires 0 <= i < |bits| => cells.High(bits[i]))
  }

  lemma {:induction false} SpacedConcat(a: seq<Segment>, b: seq<Segment>)
    requires Spaced(a) && Spaced(b)
    requires a != [] && b != [] ==> !a[|a| - 1].level || !b[0].level
    ensures Spaced(a + b)
  {
  }

  lemma {:induction false} BitsSpaced(cells: Cells, bits: seq<bool>)
    requires Phased(cells)
    ensures Spaced(cells.Bits(bits))
    ensures bits != [] ==> cells.Bits(bits) != [] && !cells.Bits(bits)[|cells.Bits(bits)| - 1].level
    ensures Highs(cells.Bits(bits)) == NominalHighs(cells, bits)
  {
    if bits != [] {
      var n := |bits| - 1;
      BitsSpaced(cells, bits[..n]);
      SpacedConcat(cells.Bits(bits[..n]), cells.Cell(bits[n]));
      HighsConcat(cells.Bits(bits[..n]), cells.Cell(bits[n]));
      CellHighs(cells, bits[n]);
      assert NominalHighs(cells, bits) == NominalHighs(cells, bits[..n]) + [cells.High(bits[n])];
    }
  }

  lemma {:induction false} CellHighs(cells: Cells, bit: bool)
    ensures Highs(cells.Cell(bit)) == [cells.High(bit)]
  {
    var cell := cells.Cell(bit);
    assert cell[..1] == [cell[0]] && [cell[0]][..0] == [];
    assert Highs([cell[0]]) == [cells.High(bit)];
  }

  lemma {:induction false} OneLow(count: int)
    ensures Highs([Segment(false, count)]) == []
  {
    assert [Segment(false, count)][..0] == [];
  }

  lemma {:induction false} TrainSpaced(cells: Cells, bits: seq<bool>, repeats: nat)
    requires Separate(cells)
    ensures var train := cells.Train(bits, repeats);
      Spaced(train) && train != [] && !train[0].level && !train[|train| - 1].level
  {
    hide Spaced, Cells.Bits;
    var gap := [Segment(false, cells.gap)];
    assert Spaced(gap) by { LowSpaced(cells.gap); }
    if repeats > 0 {
      var before := cells.Train(bits, repeats - 1);
      TrainSpaced(cells, bits, repeats - 1);
      BitsSpaced(cells, bits);
      SpacedConcat(before, cells.Bits(bits));
      SpacedConcat(before + cells.Bits(bits), gap);
    }
  }

  lemma {:induction false} LowSpaced(count: int)
    requires count > 0
    ensures Spaced([Segment(false, count)])
  {
  }

  /** The pulses of a train are those of its frames, one frame after the other. */
  lemma {:induction false} TrainHighs(cells: Cells, bits: seq<bool>, repeats: nat)
    requires Separate(cells)
    ensures |Highs(cells.Train(bits, repeats))| == repeats * |bits|
    ensures repeats >= 1 ==> NominalHighs(cells, bits) <= Highs(cells.Train(bits, repeats))
  {
    hide Highs, Cells.Bits, Cells.Train;
    if repeats == 0 {
      NoFrames(cells, bits);
    } else {
      TrainHighs(cells, bits, repeats - 1);
      OneMoreFrame(cells, bits, repeats);
      MulSucc(repeats - 1, |bits|);
      var before := Highs(cells.Train(bits, repeats - 1));
      if repeats == 1 {
        assert before == [];
      } else {
        assert NominalHighs(cells, bits) <= before;
      }
    }
  }

  lemma {:induction false} NoFrames(cells: Cells, bits: seq<bool>)
    ensures Highs(cells.Train(bits, 0)) == []
  {
    OneLow(cells.gap);
  }

  lemma {:induction false} OneMoreFrame(cells: Cells, bits: seq<bool>, repeats: nat)
    requires Separate(cells) && repeats >= 1
    ensures Highs(cells.Train(bits, repeats)) == Highs(cells.Train(bits, repeats - 1)) + NominalHighs(cells, bits)
  {
    hide Highs, Cells.Bits;
    var before, gap := cells.Train(bits, repeats - 1), [Segment(false, cells.gap)];
    BitsSpaced(cells, bits);
    HighsConcat(before, cells.Bits(bits));
    HighsConcat(before + cells.Bits(bits), gap);
    OneLow(cells.gap);
  }

  /** The first frame of a well separated capture shows the nominal high times of its bits. */
  lemma {:induction false} FirstFramePulses(cells: Cells, bits: seq<bool>, repeats: nat)
    requires Separate(cells) && repeats >= 1
    ensures var highs := HighPulses(Expand(cells.Train(bits, repeats)));
      |bits| <= |highs| && highs[..|bits|] == NominalHighs(cells, bits)
  {
    hide Highs, Cells.Train, HighPulses, Expand, Spaced;
    TrainSpaced(cells, bits, repeats);
    SpacedPulses(cells.Train(bits, repeats));
    TrainHighs(cells, bits, repeats);
  }

  // ---------------------------------------------------------------------------------------
  // End to end
  // ---------------------------------------------------------------------------------------

  /** The two pulse lengths are told apart and stay apart: a condition on the rates alone. */
  predicate Resolvable(timing: Timing, sampleRate: int)
    requires sampleRate != 0
  {
    var cells := CellsAt(timing, sampleRate);
    && cells.gap >= 1
    && cells.t0h >= 1
    && cells.t1h < cells.period
    && !Long(cells.t0h, timing, sampleRate)
    && Long(cells.t1h, timing, sampleRate)
  }

  /** Whether the decoder returns what the generator was given. */
  ghost predicate Recovered(g: Generator) {
    && g.Signal().Ok?
    && Decoded(g.Signal().value, g.sampleRate, g.rate) == Ok(Reading(Some(g.value), g.telemetry, true))
  }

  /** The two frames that between them defeat every sample rate that is not resolvable: all
      zeros, and all ones. */
  function Extreme(level: bool, rate: int, sampleRate: int): Generator {
    Generator(rate, ExtremeValue(level), level, 1, sampleRate)
  }

  function ExtremeValue(level: bool): nat {
    if level then MAX_VALUE else 0
  }

  lemma {:induction false} SamplesOrdered(timing: Timing, sampleRate: int)
    requires sampleRate > 0 && timing.t0hNs <= timing.t1hNs
    ensures CellsAt(timing, sampleRate).t0h <= CellsAt(timing, sampleRate).t1h
  {
    var d := 1000000000.0 / sampleRate as real;
    QuotientMonotone(timing.t0hNs, timing.t1hNs, d);
    RoundMonotone(timing.t0hNs / d, timing.t1hNs / d);
  }

  lemma QuotientMonotone(x: real, y: real, d: real)
    requires x <= y && d > 0.0
    ensures x / d <= y / d
  {
    var p, q := x / d, y / d;
    assert p * d == x && q * d == y;
  }

  /** What the decoder reads from a well separated capture: every bit through the threshold. */
  lemma {:induction false} ReadsThroughThreshold(g: Generator, timing: Timing)
    requires TimingOf(g.rate) == Some(timing) && 0 <= g.value <= MAX_VALUE && g.sampleRate != 0 && g.repeats >= 1
    requires Separate(CellsAt(timing, g.sampleRate))
    ensures g.Signal().Ok?
    ensures var bits := BitsMsb(Frame(g.value, g.telemetry), FRAME_BITS);
      Decoded(g.Signal().value, g.sampleRate, g.rate)
      == Ok(ReadingOf(ValueMsb(BitsRead(NominalHighs(CellsAt(timing, g.sampleRate), bits), timing, g.sampleRate))))
  {
    hide CellsAt, HighPulses, Expand, ValueMsb, BitsRead, Frame, ReadingOf, Separate;
    FirstFramePulses(CellsAt(timing, g.sampleRate), BitsMsb(Frame(g.value, g.telemetry), FRAME_BITS), g.repeats);
  }

  /** Whenever the two lengths are resolvable, every value, telemetry bit and repeat count comes
      back, with a good checksum. */
  lemma {:induction false} ResolvableRoundTrip(g: Generator, timing: Timing)
    requires TimingOf(g.rate) == Some(timing) && 0 <= g.value <= MAX_VALUE && g.sampleRate > 0 && g.repeats >= 1
    requires Resolvable(timing, g.sampleRate)
    ensures Recovered(g)
  {
    hide CellsAt, ValueMsb, Frame, ReadingOf, Decoded, Generator.Signal, BitsMsb, BitsRead, NominalHighs, Resolvable,
      Separate;
    SamplesOrdered(timing, g.sampleRate);
    ShorterIsNotLong(timing, g.sampleRate);
    ReadsThroughThreshold(g, timing);
    NominalBitsRead(timing, g.sampleRate, BitsMsb(Frame(g.value, g.telemetry), FRAME_BITS));
    FrameBits(g.value, g.telemetry);
    FrameRoundTrip(g.value, g.telemetry);
  }

  lemma {:induction false} FrameBits(value: nat, telemetry: bool)
    requires value <= MAX_VALUE
    ensures ValueMsb(BitsMsb(Frame(value, telemetry), FRAME_BITS)) == Frame(value, telemetry)
  {
    hide ValueMsb, BitsMsb, Frame, Pow2;
    var frame := Frame(value, telemetry);
    BitsMsbRoundTrip(frame, FRAME_BITS);
    FrameRoundTrip(value, telemetry);
    DivModUnique(frame, Pow2(FRAME_BITS), 0, frame);
  }

  lemma {:induction false} NominalBitsRead(timing: Timing, sampleRate: int, bits: seq<bool>)
    requires sampleRate != 0 && Resolvable(timing, sampleRate)
    ensures BitsRead(NominalHighs(CellsAt(timing, sampleRate), bits), timing, sampleRate) == bits
  {
    hide CellsAt, Long;
  }

  lemma {:induction false} ShorterIsNotLong(timing: Timing, sampleRate: int)
    requires sampleRate > 0 && Resolvable(timing, sampleRate)
    requires CellsAt(timing, sampleRate).t0h <= CellsAt(timing, sampleRate).t1h
    ensures Separate(CellsAt(timing, sampleRate))
  {
    hide Long, CellsAt;
    var cells := CellsAt(timing, sampleRate);
    assert cells.t0h <= cells.t1h < cells.period;
  }

  // ---------------------------------------------------------------------------------------
  // Rates that are not resolvable fail
  // ---------------------------------------------------------------------------------------

  lemma {:induction false} XorZero(a: nat)
    ensures Xor(a, 0) == a
  {
    if a > 0 {
      XorZero(a / 2);
    }
  }

  lemma {:induction false} XorStep(a: nat, b: nat)
    requires a > 0 || b > 0
    ensures Xor(a, b) == 2 * Xor(a / 2, b / 2) + (a + b) % 2
  {
  }

  lemma XorOddOdd(a: nat, b: nat)
    ensures Xor(2 * a + 1, 2 * b + 1) == 2 * Xor(a, b)
  {
    hide Xor;
    XorStep(2 * a + 1, 2 * b + 1);
    assert (2 * a + 1) / 2 == a && (2 * b + 1) / 2 == b;
  }

  lemma XorEvenOdd(a: nat, b: nat)
    ensures Xor(2 * a, 2 * b + 1) == 2 * Xor(a, b) + 1
  {
    hide Xor;
    XorStep(2 * a, 2 * b + 1);
    assert (2 * a) / 2 == a && (2 * b + 1) / 2 == b;
  }

  lemma {:induction false} XorNibbles(a: nat, b: nat)
    ensures Xor(16 * a + 15, 16 * b + 15) == 16 * Xor(a, b)
    ensures Xor(16 * a, 16 * b + 15) == 16 * Xor(a, b) + 15
  {
    hide Xor;
    XorOddOdd(8 * a + 7, 8 * b + 7);
    XorOddOdd(4 * a + 3, 4 * b + 3);
    XorOddOdd(2 * a + 1, 2 * b + 1);
    XorOddOdd(a, b);
    XorEvenOdd(8 * a, 8 * b + 7);
    XorEvenOdd(4 * a, 4 * b + 3);
    XorEvenOdd(2 * a, 2 * b + 1);
    XorEvenOdd(a, b);
  }

  /** The checksum of twelve ones. */
  lemma {:induction false} ChecksumOfOnes(data: nat)
    requires data == 4095
    ensures Checksum(data) == 15
  {
    hide Xor;
    XorNibbles(255, 15);
    XorNibbles(15, 0);
    XorZero(15);
    XorNibbles(240, 0);
    XorZero(240);
    assert Xor(data, data / 16) == 3840;
    assert Xor(Xor(data, data / 16), data / 256) == 3855;
  }

  lemma {:induction false} ChecksumOfZero(data: nat)
    requires data == 0
    ensures Checksum(data) == 0
  {
    hide Xor;
    XorZero(data);
  }

  lemma {:induction false} ExtremeFrames(level: bool, value: nat)
    requires value == ExtremeValue(level)
    ensures Frame(value, level) == if level then 65535 else 0
  {
    hide Checksum;
    if level {
      ChecksumOfOnes(Data(value, level));
    } else {
      ChecksumOfZero(Data(value, level));
    }
  }

  lemma {:induction false} OnesHalve(n: nat)
    requires n >= 1
    ensures (Pow2(n) - 1) / 2 == Pow2(n - 1) - 1 && (Pow2(n) - 1) % 2 == 1
  {
    assert Pow2(n) == 2 * Pow2(n - 1);
  }

  lemma {:induction false} OnesBit(n: nat, i: nat)
    requires i < n
    ensures Bit(Pow2(n) - 1, i)
  {
    hide Pow2, Bit;
    OnesHalve(n);
    if i == 0 {
      BitZero(Pow2(n) - 1);
    } else {
      BitHalf(Pow2(n) - 1, i - 1);
      OnesBit(n - 1, i - 1);
    }
  }

  lemma {:induction false} ExtremeBits()
    ensures BitsMsb(0, FRAME_BITS) == Fill(false, FRAME_BITS)
    ensures BitsMsb(65535, FRAME_BITS) == Fill(true, FRAME_BITS)
  {
    hide Pow2;
    FramesFit();
    forall i | 0 <= i < FRAME_BITS
      ensures !Bit(0, i) && Bit(65535, i)
    {
      DivModUnique(0, Pow2(i), 0, 0);
      OnesBit(FRAME_BITS, i);
    }
  }

  lemma {:induction false} ValueOfFill(level: bool, n: nat)
    ensures ValueMsb(Fill(level, n)) == if level then Pow2(n) - 1 else 0
  {
    if n > 0 {
      assert Fill(level, n)[..n - 1] == Fill(level, n - 1);
      ValueOfFill(level, n - 1);
    }
  }

  /** The frame of an extreme generator consists of equal bits. */
  lemma {:induction false} ExtremeTrain(level: bool, value: nat)
    requires value == ExtremeValue(level)
    ensures BitsMsb(Frame(value, level), FRAME_BITS) == Fill(level, FRAME_BITS)
  {
    hide BitsMsb, Frame;
    ExtremeFrames(level, value);
    ExtremeBits();
  }

  lemma {:induction false} ExtremeSignal(level: bool, rate: int, sampleRate: int, timing: Timing)
    requires TimingOf(rate) == Some(timing) && sampleRate != 0
    ensures Extreme(level, rate, sampleRate).Signal()
         == Ok(Expand(CellsAt(timing, sampleRate).Train(Fill(level, FRAME_BITS), 1)))
  {
    hide BitsMsb, Frame, Expand, CellsAt, Cells.Train;
    ExtremeTrain(level, ExtremeValue(level));
  }

  /** With too few pulses nothing is recovered. */
  lemma {:induction false} TooFewPulses(level: bool, rate: int, sampleRate: int, timing: Timing)
    requires TimingOf(rate) == Some(timing) && sampleRate != 0
    requires |HighPulses(Expand(CellsAt(timing, sampleRate).Train(Fill(level, FRAME_BITS), 1)))| < FRAME_BITS
    ensures !Recovered(Extreme(level, rate, sampleRate))
  {
    hide Expand, CellsAt, HighPulses, Cells.Train, ReadingOf, ValueMsb;
    ExtremeSignal(level, rate, sampleRate, timing);
  }

  lemma {:induction false} AtMostOnePerEdge(c: seq<bool>, edges: seq<Edge>)
    requires Within(edges, |c|)
    ensures |LengthsBehind(c, edges)| <= |edges|
  {
    if edges != [] {
      AtMostOnePerEdge(c, edges[..|edges| - 1]);
    }
  }

  lemma {:induction false} FewEdgesFewPulses(c: seq<bool>)
    ensures |HighPulses(c)| <= |Edges(c)|
  {
    EdgesWithin(c);
    AtMostOnePerEdge(c, Edges(c));
  }

  lemma {:induction false} EdgesOfFill(level: bool, n: nat)
    ensures Edges(Fill(level, n)) == []
  {
    if n > 0 {
      EdgesAppendRun([], level, n);
      assert [] + Fill(level, n) == Fill(level, n);
    }
  }

  lemma {:induction false} EdgesOfPlateau(c: seq<bool>, level: bool, n: nat)
    ensures |Edges(c + Fill(level, n))| <= |Edges(c)| + 1
  {
    if n > 0 {
      EdgesAppendRun(c, level, n);
    } else {
      assert c + Fill(level, n) == c;
    }
  }

  /** The cells of equal bits whose low phases vanish, or whose high phases do: one plateau. */
  lemma {:induction false} BitsMerge(cells: Cells, level: bool, n: nat) returns (plateau: seq<bool>)
    requires cells.High(level) <= 0 || cells.period <= cells.High(level)
    ensures plateau == Expand(cells.Bits(Fill(level, n)))
    ensures plateau == Fill(cells.High(level) > 0, |plateau|)
  {
    var bits := Fill(level, n);
    if n == 0 {
      plateau := [];
    } else {
      assert bits[..n - 1] == Fill(level, n - 1);
      var before := BitsMerge(cells, level, n - 1);
      ExpandConcat(cells.Bits(bits[..n - 1]), cells.Cell(level));
      CellExpands(cells, level);
      plateau := before + Expand(cells.Cell(level));
    }
  }

  lemma {:induction false} CellExpands(cells: Cells, level: bool)
    ensures Expand(cells.Cell(level))
         == ExpandOne(Segment(true, cells.High(level))) + ExpandOne(Segment(false, cells.period - cells.High(level)))
  {
    var cell := cells.Cell(level);
    ExpandSnoc([cell[0]], cell[1]);
    ExpandSnoc([], cell[0]);
    assert [cell[0]] + [cell[1]] == cell && [] + [cell[0]] == [cell[0]];
  }

  lemma {:induction false} OneFrameExpands(cells: Cells, bits: seq<bool>)
    ensures Expand(cells.Train(bits, 1))
         == ExpandOne(Segment(false, cells.gap)) + Expand(cells.Bits(bits)) + ExpandOne(Segment(false, cells.gap))
  {
    hide Cells.Bits, Expand;
    var gap := Segment(false, cells.gap);
    assert cells.Train(bits, 0) == [gap];
    assert cells.Train(bits, 1) == cells.Train(bits, 0) + cells.Bits(bits) + [gap];
    ExpandSnoc([gap] + cells.Bits(bits), gap);
    ExpandConcat([gap], cells.Bits(bits));
    ExpandSnoc([], gap);
    assert [] + [gap] == [gap] && Expand([]) + ExpandOne(gap) == ExpandOne(gap) by { NothingExpands(gap); }
  }

  lemma {:induction false} NothingExpands(s: Segment)
    ensures Expand([]) + ExpandOne(s) == ExpandOne(s)
  {
  }

  /** A merged frame shows at most two edges. */
  lemma {:induction false} MergedFrame(cells: Cells, level: bool)
    requires cells.High(level) <= 0 || cells.period <= cells.High(level)
    ensures |HighPulses(Expand(cells.Train(Fill(level, FRAME_BITS), 1)))| < FRAME_BITS
  {
    hide Cells.Bits, Cells.Train, HighPulses, Edges, Expand;
    var plateau := BitsMerge(cells, level, FRAME_BITS);
    OneFrameExpands(cells, Fill(level, FRAME_BITS));
    var gap := if cells.gap > 0 then cells.gap else 0;
    assert ExpandOne(Segment(false, cells.gap)) == Fill(false, gap);
    EdgesOfFill(false, gap);
    EdgesOfPlateau(Fill(false, gap), cells.High(level) > 0, |plateau|);
    EdgesOfPlateau(Fill(false, gap) + plateau, false, gap);
    FewEdgesFewPulses(Expand(cells.Train(Fill(level, FRAME_BITS), 1)));
  }

  /** Without a lead-in gap the first pulse has no rising edge. */
  lemma {:induction false} NoLeadIn(cells: Cells, bits: seq<bool>)
    requires Phased(cells) && cells.gap < 1 && |bits| == FRAME_BITS
    ensures |HighPulses(Expand(cells.Train(bits, 1)))| < FRAME_BITS
  {
    hide Cells.Train, Cells.Bits, HighPulses, Expand, Spaced, Highs, Coalesce, ChannelToSegments;
    var segments := cells.Bits(bits);
    OneFrameExpands(cells, bits);
    assert [] + Expand(segments) + [] == Expand(segments);
    BitsSpaced(cells, bits);
    FirstCell(cells, bits);
    SpacedHighs(segments);
    EncodeExpand(segments);
    FirstLevel(segments);
    HighPulsesAreRuns(Expand(segments));
    HighsLoseFirst(Coalesce(segments));
  }

  lemma {:induction false} FirstCell(cells: Cells, bits: seq<bool>)
    requires bits != [] && Phased(cells)
    ensures cells.Bits(bits) != [] && cells.Bits(bits)[0] == Segment(true, cells.High(bits[0]))
    ensures cells.Bits(bits)[0].count > 0
  {
    if |bits| > 1 {
      FirstCell(cells, bits[..|bits| - 1]);
    } else {
      assert cells.Bits(bits[..0]) == [];
    }
  }

  lemma {:induction false} HighsLoseFirst(runs: seq<Segment>)
    requires runs != [] && runs[0].level
    ensures |Highs(runs[1..])| == |Highs(runs)| - 1
  {
    if |runs| > 1 {
      var n := |runs| - 1;
      HighsLoseFirst(runs[..n]);
      assert runs[..n][1..] == runs[1..][..n - 1];
    } else {
      assert Highs(runs[..0]) == [];
    }
  }

  /** A level read on the wrong side of the threshold turns one extreme frame into the other. */
  lemma {:induction false} Misread(level: bool, rate: int, sampleRate: int, timing: Timing)
    requires TimingOf(rate) == Some(timing) && sampleRate != 0
    requires Separate(CellsAt(timing, sampleRate))
    requires Long(CellsAt(timing, sampleRate).High(level), timing, sampleRate) != level
    ensures !Recovered(Extreme(level, rate, sampleRate))
  {
    hide CellsAt, BitsMsb, Frame, ValueMsb, Long, Separate, Decoded, Pow2, Generator.Signal, Checksum;
    var g, cells := Extreme(level, rate, sampleRate), CellsAt(timing, sampleRate);
    ReadsThroughThreshold(g, timing);
    ExtremeTrain(level, g.value);
    assert BitsRead(NominalHighs(cells, Fill(level, FRAME_BITS)), timing, sampleRate) == Fill(!level, FRAME_BITS);
    ValueOfFill(!level, FRAME_BITS);
    FramesFit();
  }

  /** A rate pair that is not resolvable loses all zeros or all ones. */
  lemma {:induction false} UnresolvableFails(rate: int, sampleRate: int, timing: Timing)
    requires TimingOf(rate) == Some(timing) && sampleRate > 0
    requires !Resolvable(timing, sampleRate)
    ensures exists level :: !Recovered(Extreme(level, rate, sampleRate))
  {
    hide CellsAt, Long, Recovered, HighPulses, Expand, Cells.Train;
    var cells := CellsAt(timing, sampleRate);
    SamplesOrdered(timing, sampleRate);
    if cells.t0h < 1 {
      MergedFrame(cells, false);
      TooFewPulses(false, rate, sampleRate, timing);
    } else if cells.t1h >= cells.period {
      MergedFrame(cells, true);
      TooFewPulses(true, rate, sampleRate, timing);
    } else if cells.gap < 1 {
      NoLeadIn(cells, Fill(false, FRAME_BITS));
      TooFewPulses(false, rate, sampleRate, timing);
    } else if Long(cells.t0h, timing, sampleRate) {
      Misread(false, rate, sampleRate, timing);
    } else {
      Misread(true, rate, sampleRate, timing);
    }
  }

  /** Every frame, repeated any number of times, is recovered exactly when the two pulse lengths
      are resolvable at the sample rate. */
  lemma {:induction false} RoundTripExactly(rate: int, sampleRate: int, timing: Timing)
    requires TimingOf(rate) == Some(timing) && sampleRate > 0
    ensures (forall value, telemetry, repeats :: 0 <= value <= MAX_VALUE && repeats >= 1 ==>
              Recovered(Generator(rate, value, telemetry, repeats, sampleRate)))
       <==> Resolvable(timing, sampleRate)
  {
    hide Recovered, Resolvable;
    if Resolvable(timing, sampleRate) {
      forall value, telemetry, repeats | 0 <= value <= MAX_VALUE && repeats >= 1
        ensures Recovered(Generator(rate, value, telemetry, repeats, sampleRate))
      {
        ResolvableRoundTrip(Generator(rate, value, telemetry, repeats, sampleRate), timing);
      }
    } else {
      UnresolvableFails(rate, sampleRate, timing);
    }
  }

  // ---------------------------------------------------------------------------------------
  // A simple sufficient rate
  // ---------------------------------------------------------------------------------------

  lemma RoundNear(ns: real, sampleRate: int, d: real)
    requires sampleRate > 0 && d == 1000000000.0 / sampleRate as real
    ensures d > 0.0
    ensures ns - d / 2.0 <= Samples(ns, sampleRate) as real * d <= ns + d / 2.0
  {
    hide Round;
    var n := Samples(ns, sampleRate);
    QuotientTimes(ns, d);
    RoundWithin(ns / d);
    NearProduct(ns / d, n as real, d);
  }

  lemma QuotientTimes(x: real, d: real)
    requires d > 0.0
    ensures x / d * d == x
  {
  }

  lemma RoundWithin(x: real)
    ensures Round(x) as real - 0.5 <= x <= Round(x) as real + 0.5
  {
  }

  lemma NearProduct(q: real, n: real, d: real)
    requires d > 0.0 && n - 0.5 <= q <= n + 0.5
    ensures q * d - d / 2.0 <= n * d <= q * d + d / 2.0
  {
    RealMulMonotone(d, q, n + 0.5);
    RealMulMonotone(d, n - 0.5, q);
  }

  lemma AtLeastOne(n: int, d: real)
    requires d > 0.0 && n as real * d > 0.0
    ensures n >= 1
  {
    if n <= 0 {
      RealMulMonotone(d, n as real, 0.0);
    }
  }

  lemma LargerCount(m: int, n: int, d: real)
    requires d > 0.0 && m as real * d < n as real * d
    ensures m < n
  {
    if n <= m {
      RealMulMonotone(d, n as real, m as real);
    }
  }

  /** How long a number of samples lasts. */
  function Lasting(n: int, d: real): real {
    n as real * d
  }

  lemma LongLasts(high: int, timing: Timing, sampleRate: int, d: real)
    requires sampleRate > 0 && d == 1000000000.0 / sampleRate as real
    ensures Long(high, timing, sampleRate) <==> Lasting(high, d) > (timing.t0hNs + timing.t1hNs) / 2.0
  {
  }

  lemma LastingNear(ns: real, sampleRate: int, d: real)
    requires sampleRate > 0 && d == 1000000000.0 / sampleRate as real
    ensures d > 0.0
    ensures ns - d / 2.0 <= Lasting(Samples(ns, sampleRate), d) <= ns + d / 2.0
  {
    hide Samples;
    RoundNear(ns, sampleRate, d);
  }

  lemma LongerLasting(m: int, n: int, d: real)
    requires d > 0.0 && Lasting(m, d) < Lasting(n, d)
    ensures m < n
  {
    LargerCount(m, n, d);
  }

  lemma LastingAtLeastOne(n: int, d: real)
    requires d > 0.0 && Lasting(n, d) > 0.0
    ensures n >= 1
  {
    AtLeastOne(n, d);
  }

  /** What the table of timings guarantees for the low time of a one. */
  lemma TableFacts(rate: int, timing: Timing)
    requires TimingOf(rate) == Some(timing)
    ensures var low := timing.periodNs - timing.t1hNs;
      && 0.0 < low / 2.0 < GAP_NS
      && low / 2.0 < timing.t0hNs
      && timing.t0hNs + low / 2.0 < (timing.t0hNs + timing.t1hNs) / 2.0
      && (timing.t0hNs + timing.t1hNs) / 2.0 < timing.t1hNs - low / 2.0
  {
  }

  /** A sample period below the low time of a one is enough. */
  lemma {:induction false} FineEnoughIsResolvable(rate: int, sampleRate: int, timing: Timing)
    requires TimingOf(rate) == Some(timing) && sampleRate > 0
    requires 1000000000.0 / sampleRate as real < timing.periodNs - timing.t1hNs
    ensures Resolvable(timing, sampleRate)
  {
    hide Samples, Long, Lasting, TimingOf;
    var d := 1000000000.0 / sampleRate as real;
    var cells := CellsAt(timing, sampleRate);
    TableFacts(rate, timing);
    LastingNear(timing.periodNs, sampleRate, d);
    LastingNear(timing.t0hNs, sampleRate, d);
    LastingNear(timing.t1hNs, sampleRate, d);
    LastingNear(GAP_NS, sampleRate, d);
    LastingAtLeastOne(cells.gap, d);
    LastingAtLeastOne(cells.t0h, d);
    LongerLasting(cells.t1h, cells.period, d);
    LongLasts(cells.t0h, timing, sampleRate, d);
    LongLasts(cells.t1h, timing, sampleRate, d);
  }

  // ---------------------------------------------------------------------------------------
  // The firmware's encoder
  // ---------------------------------------------------------------------------------------

  /** What `dshot_encode_frame` promises: the frame modulo 2^16. */
  function EncodedFrame(value: nat, telemetry: bool): nat {
    var packet := (value * 2 + (if telemetry then 1 else 0)) % 0x10000;
    (packet * 16) % 0x10000 + Checksum(packet)
  }

  method EncodeFrame(value: nat, telemetry: bool) returns (frame: nat)
    requires value < 0x10000
    ensures frame == EncodedFrame(value, telemetry)
  {
    var packet := (value * 2 + (if telemetry then 1 else 0)) % 0x10000;
    var csum := 0;
    var csumData := packet;
    for i := 0 to 3
      invariant csumData == Shifted(packet, i)
      invariant csum == Folded(packet, i)
    {
      csum := Xor(csum, csumData);
      csumData := csumData / 16;
    }
    FoldIsChecksum(packet);
    csum := csum % 16;
    frame := (packet * 16) % 0x10000 + csum;
  }

  function Shifted(packet: nat, i: nat): nat {
    if i == 0 then packet else Shifted(packet, i - 1) / 16
  }

  /** The exclusive or of the first `i` shifts. */
  function Folded(packet: nat, i: nat): nat {
    if i == 0 then 0 else Xor(Folded(packet, i - 1), Shifted(packet, i - 1))
  }

  lemma {:induction false} ZeroXor(a: nat)
    ensures Xor(0, a) == a
  {
    if a > 0 {
      ZeroXor(a / 2);
    }
  }

  lemma {:induction false} FoldIsChecksum(packet: nat)
    ensures Folded(packet, 3) % 16 == Checksum(packet)
  {
    hide Xor;
    ZeroXor(packet);
    assert Folded(packet, 0) == 0 && Shifted(packet, 0) == packet;
    assert Folded(packet, 1) == packet && Shifted(packet, 1) == packet / 16;
    assert Folded(packet, 2) == Xor(packet, packet / 16) && Shifted(packet, 2) == packet / 256;
    assert Folded(packet, 3) == Xor(Xor(packet, packet / 16), packet / 256);
  }

  /** The firmware builds the host's frame exactly for the values that fit 11 bits; a wider
      value loses its upper bits. */
  lemma {:induction false} EncoderAgreesExactly(value: nat, telemetry: bool)
    requires value < 0x10000
    ensures EncodedFrame(value, telemetry) == Frame(value, telemetry) <==> value <= MAX_VALUE
    ensures EncodedFrame(value, telemetry) < 0x10000
  {
    hide Checksum;
    if value <= MAX_VALUE {
      DivModUnique(Data(value, telemetry), 0x10000, 0, Data(value, telemetry));
      DivModUnique(Data(value, telemetry) * 16, 0x10000, 0, Data(value, telemetry) * 16);
    } else {
      assert Frame(value, telemetry) >= 0x10000;
    }
  }

  /** What the firmware sends is what the host reads back. */
  lemma {:induction false} EncoderRoundTrip(value: nat, telemetry: bool)
    requires value <= MAX_VALUE
    ensures ReadingOf(EncodedFrame(value, telemetry)) == Reading(Some(value), telemetry, true)
  {
    hide Frame, EncodedFrame, ReadingOf;
    EncoderAgreesExactly(value, telemetry);
    FrameRoundTrip(value, telemetry);
  }
}
