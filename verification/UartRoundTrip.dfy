/** The native decoder against the generator: the exact condition under which every payload
    survives, and what the scan guarantees on signals nobody generated. */
module UartRoundTrip {
  import opened Numbers
  import opened Results
  import opened Signals
  import opened Uart

  // ---------------------------------------------------------------------------------------
  // The scan on arbitrary signals
  // ---------------------------------------------------------------------------------------

  ghost predicate OrderedWindows(events: seq<ByteEvent>) {
    && (forall i :: 0 <= i < |events| ==> events[i].start < events[i].end)
    && (forall i, j :: 0 <= i < j < |events| ==> events[i].end < events[j].start)
  }

  /** A frame whose stop bit would lie behind the end of the signal. */
  ghost predicate Truncated(signal: seq<bool>, start: int, bitPeriod: real) {
    Center(start, bitPeriod, 9) >= |signal|
  }

  /** The event starts at a falling edge and carries what the midpoint sampling reads there. */
  ghost predicate FaithfulEvent(signal: seq<bool>, bitPeriod: real, e: ByteEvent)
    requires bitPeriod >= 1.0
  {
    && IsFalling(signal, e.start)
    && DecodedFrame(signal, e.start, bitPeriod, 8).Some?
    && e == EventOf(e.start, DecodedFrame(signal, e.start, bitPeriod, 8).value)
  }

  lemma {:induction false} ScanIsFaithful(signal: seq<bool>, idx: nat, bitPeriod: real)
    requires idx >= 1 && bitPeriod >= 1.0
    ensures forall e :: e in Scan(signal, idx, bitPeriod) ==> FaithfulEvent(signal, bitPeriod, e)
    decreases |signal| - idx
  {
    if idx < |signal| {
      ScanStep(signal, idx, bitPeriod, []);
      if signal[idx - 1] && !signal[idx] && DecodedFrame(signal, idx, bitPeriod, 8).Some? {
        var frame := DecodedFrame(signal, idx, bitPeriod, 8).value;
        assert FaithfulEvent(signal, bitPeriod, EventOf(idx, frame));
        ScanIsFaithful(signal, frame.end + 1, bitPeriod);
      } else {
        ScanIsFaithful(signal, idx + 1, bitPeriod);
      }
    }
  }

  /** What an event says, in samples: it starts at a falling edge, each bit of its value is the
      sample in the middle of that bit, it is flagged when the sample in the middle of the stop bit
      is low, it ends with ten bit periods, and printable values come with their character. */
  ghost predicate ReadAt(signal: seq<bool>, bitPeriod: real, e: ByteEvent) {
    && 1 <= e.start < |signal| && signal[e.start - 1] && !signal[e.start]
    && e.start <= e.start + Round(bitPeriod * 9.5) < |signal|
    && e.framingError == !signal[e.start + Round(bitPeriod * 9.5)]
    && e.value < 256
    && (forall i: nat :: i < 8 ==> BitReadAt(signal, bitPeriod, e, i))
    && e.end == e.start + Round(bitPeriod * 10.0) - 1
    && e.ascii == (if 0x20 <= e.value <= 0x7E then Some(e.value as char) else None)
  }

  ghost predicate BitReadAt(signal: seq<bool>, bitPeriod: real, e: ByteEvent, i: nat) {
    var at := e.start + Round(bitPeriod * (i as real + 1.5));
    0 <= at < |signal| && Bit(e.value, i) == signal[at]
  }

  lemma {:induction false} FaithfulIsRead(signal: seq<bool>, bitPeriod: real, e: ByteEvent)
    requires bitPeriod >= 1.0 && FaithfulEvent(signal, bitPeriod, e)
    ensures ReadAt(signal, bitPeriod, e)
  {
    hide Bit, ValueLsb, DataSamples, Round;
    assert 9 as real + 0.5 == 9.5;
    assert Midpoint(bitPeriod, 9) == bitPeriod * 9.5;
    CenterMonotone(e.start, bitPeriod, 0, 9);
    ValueLsbBound(DataSamples(signal, e.start, bitPeriod, 8));
    assert Pow2(8) == 256;
    assert bitPeriod * (8 + 2) as real == bitPeriod * 10.0;
    EventSays(e, DecodedFrame(signal, e.start, bitPeriod, 8).value);
    SamplesLength(signal, e.start, bitPeriod);
    forall i: nat | i < 8 ensures BitReadAt(signal, bitPeriod, e, i) {
      BitRead(signal, e.start, bitPeriod, i);
    }
  }

  lemma EventSays(e: ByteEvent, frame: Frame)
    requires e == EventOf(e.start, frame)
    ensures e.end == frame.end && e.value == frame.value && e.framingError == !frame.stopHigh
    ensures e.ascii == (if 0x20 <= e.value <= 0x7E then Some(e.value as char) else None)
  {
  }

  lemma SamplesLength(signal: seq<bool>, start: nat, bitPeriod: real)
    requires bitPeriod >= 1.0 && Center(start, bitPeriod, 9) < |signal|
    ensures |DataSamples(signal, start, bitPeriod, 8)| == 8
  {
  }

  lemma {:induction false} BitRead(signal: seq<bool>, start: nat, bitPeriod: real, i: nat)
    requires bitPeriod >= 1.0 && Center(start, bitPeriod, 9) < |signal| && i < 8
    ensures var at := start + Round(bitPeriod * (i as real + 1.5));
      0 <= at < |signal| && Bit(ValueLsb(DataSamples(signal, start, bitPeriod, 8)), i) == signal[at]
  {
    hide Bit, ValueLsb, Round, DataSamples, Center;
    var samples := DataSamples(signal, start, bitPeriod, 8);
    SamplesLength(signal, start, bitPeriod);
    BitOfValue(samples, i);
    SampleIs(signal, start, bitPeriod, samples, i);
    CenterOfBit(start, bitPeriod, i);
  }

  lemma CenterOfBit(start: int, bitPeriod: real, i: nat)
    ensures Center(start, bitPeriod, i + 1) == start + Round(bitPeriod * (i as real + 1.5))
  {
    hide Round;
    assert (i + 1) as real + 0.5 == i as real + 1.5;
    assert Midpoint(bitPeriod, i + 1) == bitPeriod * (i as real + 1.5);
  }

  lemma SampleIs(signal: seq<bool>, start: nat, bitPeriod: real, samples: seq<bool>, i: nat)
    requires bitPeriod >= 1.0 && Center(start, bitPeriod, 9) < |signal| && i < 8
    requires samples == DataSamples(signal, start, bitPeriod, 8)
    ensures |samples| == 8
    ensures 0 <= Center(start, bitPeriod, i + 1) < |signal| && samples[i] == signal[Center(start, bitPeriod, i + 1)]
  {
    CenterMonotone(start, bitPeriod, 0, i + 1);
    CenterMonotone(start, bitPeriod, i + 1, 9);
  }

  /** On every signal each event of the scan says what the samples say. */
  lemma {:induction false} ScanReads(signal: seq<bool>, idx: nat, bitPeriod: real)
    requires idx >= 1 && bitPeriod >= 1.0
    ensures forall e :: e in Scan(signal, idx, bitPeriod) ==> ReadAt(signal, bitPeriod, e)
  {
    hide FaithfulEvent, ReadAt;
    ScanIsFaithful(signal, idx, bitPeriod);
    forall e | e in Scan(signal, idx, bitPeriod) ensures ReadAt(signal, bitPeriod, e) {
      FaithfulIsRead(signal, bitPeriod, e);
    }
  }

  /** Event windows are disjoint and strictly ordered. */
  lemma {:induction false} ScanIsOrdered(signal: seq<bool>, idx: nat, bitPeriod: real)
    requires idx >= 1 && bitPeriod >= 1.0
    ensures OrderedWindows(Scan(signal, idx, bitPeriod))
    ensures forall i :: 0 <= i < |Scan(signal, idx, bitPeriod)| ==> Scan(signal, idx, bitPeriod)[i].start >= idx
    decreases |signal| - idx
  {
    if idx < |signal| {
      ScanStep(signal, idx, bitPeriod, []);
      if signal[idx - 1] && !signal[idx] && DecodedFrame(signal, idx, bitPeriod, 8).Some? {
        ScanIsOrdered(signal, DecodedFrame(signal, idx, bitPeriod, 8).value.end + 1, bitPeriod);
      } else {
        ScanIsOrdered(signal, idx + 1, bitPeriod);
      }
    }
  }

  /** No falling edge is lost: each starts an event, lies inside one, or is cut off. */
  lemma {:induction false} ScanIsComplete(signal: seq<bool>, idx: nat, bitPeriod: real, f: int)
    requires idx >= 1 && bitPeriod >= 1.0
    requires IsFalling(signal, f) && f >= idx
    ensures Truncated(signal, f, bitPeriod)
         || exists e :: e in Scan(signal, idx, bitPeriod) && e.start <= f <= e.end
    decreases |signal| - idx
  {
    ScanStep(signal, idx, bitPeriod, []);
    if signal[idx - 1] && !signal[idx] && DecodedFrame(signal, idx, bitPeriod, 8).Some? {
      var frame := DecodedFrame(signal, idx, bitPeriod, 8).value;
      var event := EventOf(idx, frame);
      assert event in Scan(signal, idx, bitPeriod);
      if f > frame.end {
        ScanIsComplete(signal, frame.end + 1, bitPeriod, f);
      }
    } else if f > idx {
      ScanIsComplete(signal, idx + 1, bitPeriod, f);
    }
  }

  // ---------------------------------------------------------------------------------------
  // The generated line, sample by sample
  // ---------------------------------------------------------------------------------------

  /** Cell `c` of an 8N1 frame and everything behind it up to the next frame. */
  predicate CellLevel(byte: int, c: nat) {
    if c == 0 then false else if c <= 8 then Bit(byte, c - 1) else true
  }

  const FRAME_CELLS := 13

  lemma EightNOneCell(byte: int)
    ensures |FrameCell(byte, EIGHT_N_ONE)| == FRAME_CELLS
    ensures forall c :: 0 <= c < FRAME_CELLS ==> FrameCell(byte, EIGHT_N_ONE)[c] == CellLevel(byte, c)
  {
    assert Round(1.0) == 1;
    assert FrameLevels(byte, EIGHT_N_ONE) == [false] + BitsLsb(byte, 8) + [] + Fill(true, 1);
  }

  lemma {:induction false} FrameCellsAt(payload: seq<int>, k: nat, c: nat)
    requires k < |payload| && c < FRAME_CELLS
    ensures |FrameCells(payload, EIGHT_N_ONE)| == FRAME_CELLS * |payload|
    ensures FRAME_CELLS * k + c < |FrameCells(payload, EIGHT_N_ONE)|
    ensures FrameCells(payload, EIGHT_N_ONE)[FRAME_CELLS * k + c] == CellLevel(payload[k], c)
  {
    var n := |payload| - 1;
    EightNOneCell(payload[n]);
    if n > 0 {
      FrameCellsAt(payload[..n], if k < n then k else 0, c);
    }
  }

  /** The first cell of frame `k`. */
  function FrameStart(k: nat): nat {
    IDLE_LEAD_BITS + FRAME_CELLS * k
  }

  lemma LineLength(payload: seq<int>)
    requires payload != []
    ensures |LineLevels(payload, EIGHT_N_ONE)| == FrameStart(|payload|) + IDLE_TRAIL_BITS
  {
    FrameCellsAt(payload, 0, 0);
  }

  lemma LineAt(payload: seq<int>, k: nat, c: nat)
    requires k < |payload| && c < FRAME_CELLS
    ensures FrameStart(k) + c < |LineLevels(payload, EIGHT_N_ONE)|
    ensures LineLevels(payload, EIGHT_N_ONE)[FrameStart(k) + c] == CellLevel(payload[k], c)
  {
    FrameCellsAt(payload, k, c);
  }

  lemma LineIdle(payload: seq<int>, c: nat)
    requires payload != []
    requires c < IDLE_LEAD_BITS || FrameStart(|payload|) <= c < FrameStart(|payload|) + IDLE_TRAIL_BITS
    ensures c < |LineLevels(payload, EIGHT_N_ONE)| && LineLevels(payload, EIGHT_N_ONE)[c]
  {
    LineLength(payload);
  }

  function Line(payload: seq<int>, bitSamples: nat): seq<bool> {
    Stretch(LineLevels(payload, EIGHT_N_ONE), bitSamples)
  }

  lemma SplitOffset(o: nat, cell: nat) returns (c: nat, rest: nat)
    requires cell > 0
    ensures o == c * cell + rest && rest < cell
  {
    c, rest := o / cell, o % cell;
  }

  /** The sample `o` samples behind the start of frame `k`, in cell `c`. */
  lemma {:induction false} SampleAt(payload: seq<int>, bitSamples: nat, k: nat, c: nat, o: nat)
    requires k < |payload| && c < FRAME_CELLS && c * bitSamples <= o < (c + 1) * bitSamples
    ensures FrameStart(k) * bitSamples + o < |Line(payload, bitSamples)|
    ensures Line(payload, bitSamples)[FrameStart(k) * bitSamples + o] == CellLevel(payload[k], c)
  {
    LineAt(payload, k, c);
    var rest := o - c * bitSamples;
    assert (c + 1) * bitSamples == c * bitSamples + bitSamples;
    StretchCell(LineLevels(payload, EIGHT_N_ONE), bitSamples, FrameStart(k) + c, rest);
    assert (FrameStart(k) + c) * bitSamples == FrameStart(k) * bitSamples + c * bitSamples;
  }

  lemma {:induction false} IdleAt(payload: seq<int>, bitSamples: nat, i: nat)
    requires payload != []
    requires i < IDLE_LEAD_BITS * bitSamples
          || FrameStart(|payload|) * bitSamples <= i < (FrameStart(|payload|) + IDLE_TRAIL_BITS) * bitSamples
    ensures i < |Line(payload, bitSamples)| == (FrameStart(|payload|) + IDLE_TRAIL_BITS) * bitSamples
    ensures Line(payload, bitSamples)[i]
  {
    LineLength(payload);
    var c, rest := SplitOffset(i, bitSamples);
    InCell(i, bitSamples, c, rest, IDLE_LEAD_BITS);
    InCell(i, bitSamples, c, rest, FrameStart(|payload|));
    InCell(i, bitSamples, c, rest, FrameStart(|payload|) + IDLE_TRAIL_BITS);
    LineIdle(payload, c);
    StretchCell(LineLevels(payload, EIGHT_N_ONE), bitSamples, c, rest);
  }

  lemma InCell(i: nat, cell: nat, c: nat, rest: nat, bound: nat)
    requires i == c * cell + rest && rest < cell
    ensures i < bound * cell <==> c < bound
  {
    if c < bound {
      assert (c + 1) * cell <= bound * cell;
      assert (c + 1) * cell == c * cell + cell;
    } else {
      assert bound * cell <= c * cell;
    }
  }

  /** From cell 9 to the next frame the line is high. */
  lemma {:induction false} HighBehindData(payload: seq<int>, bitSamples: nat, k: nat, o: nat)
    requires k < |payload| && 9 * bitSamples <= o < FRAME_CELLS * bitSamples
    ensures FrameStart(k) * bitSamples + o < |Line(payload, bitSamples)|
    ensures Line(payload, bitSamples)[FrameStart(k) * bitSamples + o]
  {
    var c, rest := SplitOffset(o, bitSamples);
    InCell(o, bitSamples, c, rest, 9);
    InCell(o, bitSamples, c, rest, FRAME_CELLS);
    SampleAt(payload, bitSamples, k, c, o);
  }

  // ---------------------------------------------------------------------------------------
  // Sampling points
  // ---------------------------------------------------------------------------------------

  /** The decoder's drift against the rounded bit period stays harmless: the last data bit is
      sampled before the stop bit begins and the stop bit not before it begins. */
  predicate Aligned(bitPeriod: real, bitSamples: int) {
    bitSamples >= 2 && Round(bitPeriod * 8.5) < 9 * bitSamples <= Round(bitPeriod * 9.5)
  }

  /** Then every data bit is sampled inside its own cell. */
  lemma DataBitInCell(bitPeriod: real, bitSamples: int, k: int)
    requires bitSamples == Round(bitPeriod) && Aligned(bitPeriod, bitSamples)
    requires 1 <= k <= 8
    ensures k * bitSamples <= Round(Midpoint(bitPeriod, k)) < (k + 1) * bitSamples
  {
    if k == 8 {
      LastDataBit(bitPeriod, bitSamples, k);
    } else {
      AlignedBounds(bitPeriod, bitSamples);
      EarlyDataBit(bitPeriod, bitSamples, k);
    }
  }

  lemma AlignedBounds(bitPeriod: real, bitSamples: int)
    requires bitSamples == Round(bitPeriod) && Aligned(bitPeriod, bitSamples)
    ensures bitPeriod * 8.5 <= 9.0 * bitSamples as real - 0.5 <= bitPeriod * 9.5
  {
  }

  lemma EarlyDataBit(bitPeriod: real, bitSamples: int, k: int)
    requires bitPeriod * 8.5 <= 9.0 * bitSamples as real - 0.5 <= bitPeriod * 9.5
    requires bitSamples >= 2 && 1 <= k < 8
    ensures k * bitSamples <= Round(Midpoint(bitPeriod, k)) < (k + 1) * bitSamples
  {
    Drift(bitPeriod, bitSamples as real, k as real);
    CellOf(Midpoint(bitPeriod, k), k, bitSamples);
  }

  lemma LastDataBit(bitPeriod: real, bitSamples: int, k: int)
    requires bitSamples == Round(bitPeriod) && Aligned(bitPeriod, bitSamples) && k == 8
    ensures k * bitSamples <= Round(Midpoint(bitPeriod, k)) < (k + 1) * bitSamples
  {
    var x := bitPeriod * 8.5;
    assert bitPeriod * (k as real + 0.5) == x;
    assert x > 8.0 * bitSamples as real - 0.5;
    assert 8 * bitSamples <= Round(x) < 9 * bitSamples;
  }

  lemma CellOf(x: real, k: nat, bitSamples: int)
    requires k as real * bitSamples as real - 0.5 < x < k as real * bitSamples as real + bitSamples as real - 0.5
    ensures k * bitSamples <= Round(x) < (k + 1) * bitSamples
  {
    var first := k * bitSamples;
    assert first as real == k as real * bitSamples as real by { RealProduct(k, bitSamples); }
    assert (k + 1) * bitSamples == first + bitSamples;
    var r := Round(x);
    assert first <= r < first + bitSamples;
  }

  lemma {:induction false} RealProduct(k: nat, n: int)
    ensures (k * n) as real == k as real * n as real
  {
    if k > 0 {
      RealProduct(k - 1, n);
      assert k * n == (k - 1) * n + n;
      assert k as real * n as real == (k - 1) as real * n as real + n as real;
    }
  }

  /** Whether the true period is shorter or longer than the rounded one, a sampling point
      stays in its cell when the last ones do. */
  lemma Drift(t: real, b: real, k: real)
    requires t * 8.5 <= 9.0 * b - 0.5 <= t * 9.5
    requires b >= 2.0 && 1.0 <= k < 8.0
    ensures k * b - 0.5 < t * (k + 0.5) < k * b + b - 0.5
  {
    assert t * (k + 0.5) == t * k + 0.5 * t;
    if t < b {
      Product(b - t, k, b * k - t * k);
      Product(b - t, 9.0 - k, 9.0 * b - 9.0 * t - b * k + t * k);
    } else {
      Product(t - b, k, t * k - b * k);
      Product(t - b, 8.0 - k, 8.0 * t - 8.0 * b - t * k + b * k);
    }
  }

  lemma Product(x: real, y: real, p: real)
    requires x >= 0.0 && y >= 0.0 && p == x * y
    ensures p >= 0.0
    ensures x > 0.0 && y > 0.0 ==> p > 0.0
  {
  }

  /** And the scan resumes between the last falling edge of the frame and the next start. */
  lemma ResumeInGap(bitPeriod: real, bitSamples: int)
    requires bitSamples == Round(bitPeriod) && Aligned(bitPeriod, bitSamples)
    ensures bitPeriod >= 1.0
    ensures Round(bitPeriod * 9.5) < FRAME_CELLS * bitSamples
    ensures 8 * bitSamples < Round(bitPeriod * 10.0) <= FRAME_CELLS * bitSamples
  {
    assert bitPeriod * 8.5 <= 9.0 * bitSamples as real - 0.5;
    assert bitPeriod * 9.5 >= 9.0 * bitSamples as real - 0.5;
  }

  lemma TenSamplesSuffice(bitPeriod: real)
    requires Round(bitPeriod) >= 10
    ensures Aligned(bitPeriod, Round(bitPeriod))
  {
  }

  lemma WholePeriodsSuffice(bitPeriod: int)
    requires bitPeriod >= 2
    ensures Aligned(bitPeriod as real, Round(bitPeriod as real))
  {
    RoundOfInteger(bitPeriod);
  }

  // ---------------------------------------------------------------------------------------
  // Decoding a generated line
  // ---------------------------------------------------------------------------------------

  /** The event of frame `k`. */
  function FrameEvent(byte: int, k: nat, bitPeriod: real, bitSamples: nat): ByteEvent {
    var start := FrameStart(k) * bitSamples;
    EventOf(start, Frame(byte % 256, start + Round(bitPeriod * 10.0) - 1, true))
  }

  /** One event per payload byte, at its true start edge and without framing error. */
  function PayloadEvents(payload: seq<int>, bitPeriod: real, bitSamples: nat): seq<ByteEvent> {
    seq(|payload|, k requires 0 <= k < |payload| => FrameEvent(payload[k], k, bitPeriod, bitSamples))
  }

  lemma {:induction false} DecodeFrameAt(payload: seq<int>, bitPeriod: real, bitSamples: nat, k: nat)
    requires k < |payload| && bitSamples == Round(bitPeriod) && Aligned(bitPeriod, bitSamples)
    ensures bitPeriod >= 1.0
    ensures var start := FrameStart(k) * bitSamples;
      DecodedFrame(Line(payload, bitSamples), start, bitPeriod, 8)
      == Some(Frame(payload[k] % 256, start + Round(bitPeriod * 10.0) - 1, true))
  {
    StopSampleHigh(payload, bitPeriod, bitSamples, k);
    DataSamplesAre(payload, bitPeriod, bitSamples, k);
    BitsLsbRoundTrip(payload[k], 8);
    assert Pow2(8) == 256;
  }

  lemma {:induction false} StopSampleHigh(payload: seq<int>, bitPeriod: real, bitSamples: nat, k: nat)
    requires k < |payload| && bitSamples == Round(bitPeriod) && Aligned(bitPeriod, bitSamples)
    ensures bitPeriod >= 1.0
    ensures var stop := Center(FrameStart(k) * bitSamples, bitPeriod, 9);
      0 <= stop < |Line(payload, bitSamples)| && Line(payload, bitSamples)[stop]
  {
    hide Line, Round;
    ResumeInGap(bitPeriod, bitSamples);
    assert bitPeriod * (9 as real + 0.5) == bitPeriod * 9.5;
    assert 9 * bitSamples <= Round(bitPeriod * 9.5);
    HighBehindData(payload, bitSamples, k, Round(bitPeriod * 9.5));
  }

  lemma {:induction false} DataSamplesAre(payload: seq<int>, bitPeriod: real, bitSamples: nat, k: nat)
    requires k < |payload| && bitSamples == Round(bitPeriod) && Aligned(bitPeriod, bitSamples)
    requires bitPeriod >= 1.0
    requires Center(FrameStart(k) * bitSamples, bitPeriod, 9) < |Line(payload, bitSamples)|
    ensures DataSamples(Line(payload, bitSamples), FrameStart(k) * bitSamples, bitPeriod, 8)
         == BitsLsb(payload[k], 8)
  {
    var samples := DataSamples(Line(payload, bitSamples), FrameStart(k) * bitSamples, bitPeriod, 8);
    forall i | 0 <= i < 8 ensures samples[i] == Bit(payload[k], i) {
      DataSampleIs(payload, bitPeriod, bitSamples, k, i);
    }
  }

  lemma {:induction false} DataSampleIs(payload: seq<int>, bitPeriod: real, bitSamples: nat, k: nat, i: nat)
    requires k < |payload| && bitSamples == Round(bitPeriod) && Aligned(bitPeriod, bitSamples) && i < 8
    ensures var at := Center(FrameStart(k) * bitSamples, bitPeriod, i + 1);
      0 <= at < |Line(payload, bitSamples)| && Line(payload, bitSamples)[at] == Bit(payload[k], i)
  {
    var bit: nat := i + 1;
    var o := Round(Midpoint(bitPeriod, bit));
    assert bit * bitSamples <= o < (bit + 1) * bitSamples by { DataBitInCell(bitPeriod, bitSamples, bit); }
    assert Center(FrameStart(k) * bitSamples, bitPeriod, bit) == FrameStart(k) * bitSamples + o;
    DataCell(payload, bitSamples, k, bit, o);
  }

  lemma {:induction false} DataCell(payload: seq<int>, bitSamples: nat, k: nat, bit: nat, o: int)
    requires k < |payload| && 1 <= bit <= 8 && bit * bitSamples <= o < (bit + 1) * bitSamples
    ensures 0 <= FrameStart(k) * bitSamples + o < |Line(payload, bitSamples)|
    ensures Line(payload, bitSamples)[FrameStart(k) * bitSamples + o] == Bit(payload[k], bit - 1)
  {
    assert bit * bitSamples >= 0;
    SampleAt(payload, bitSamples, k, bit, o);
  }

  ghost predicate NoFall(signal: seq<bool>, lo: int, hi: int) {
    forall i :: lo <= i < hi ==> !IsFalling(signal, i)
  }

  lemma {:induction false} SkipQuiet(signal: seq<bool>, lo: nat, hi: nat, bitPeriod: real)
    requires 1 <= lo <= hi <= |signal| && bitPeriod >= 1.0
    requires NoFall(signal, lo, hi)
    ensures Scan(signal, lo, bitPeriod) == Scan(signal, hi, bitPeriod)
    decreases hi - lo
  {
    if lo < hi {
      assert !IsFalling(signal, lo);
      SkipQuiet(signal, lo + 1, hi, bitPeriod);
    }
  }

  /** Behind the start of data cell 8 nothing falls until the next frame begins. */
  lemma {:induction false} QuietBehindData(payload: seq<int>, bitSamples: nat, k: nat)
    requires k < |payload| && bitSamples >= 1
    ensures NoFall(Line(payload, bitSamples),
                   FrameStart(k) * bitSamples + 8 * bitSamples + 1,
                   FrameStart(k) * bitSamples + FRAME_CELLS * bitSamples)
  {
    var base := FrameStart(k) * bitSamples;
    forall i | base + 8 * bitSamples + 1 <= i < base + FRAME_CELLS * bitSamples
      ensures !IsFalling(Line(payload, bitSamples), i)
    {
      var o := i - base;
      if o < 9 * bitSamples {
        SampleAt(payload, bitSamples, k, 8, o);
        SampleAt(payload, bitSamples, k, 8, o - 1);
      } else {
        HighBehindData(payload, bitSamples, k, o);
      }
    }
  }

  lemma NextFrameStart(k: nat, bitSamples: nat)
    ensures FrameStart(k + 1) * bitSamples == FrameStart(k) * bitSamples + FRAME_CELLS * bitSamples
  {
  }

  lemma {:induction false} LineEnds(payload: seq<int>, bitSamples: nat)
    requires payload != [] && bitSamples >= 1
    ensures |Line(payload, bitSamples)| == FrameStart(|payload|) * bitSamples + IDLE_TRAIL_BITS * bitSamples
    ensures NoFall(Line(payload, bitSamples), 1, IDLE_LEAD_BITS * bitSamples)
    ensures NoFall(Line(payload, bitSamples), FrameStart(|payload|) * bitSamples, |Line(payload, bitSamples)|)
  {
    IdleAt(payload, bitSamples, 0);
    LeadQuiet(payload, bitSamples);
    TrailQuiet(payload, bitSamples);
  }

  lemma {:induction false} LeadQuiet(payload: seq<int>, bitSamples: nat)
    requires payload != [] && bitSamples >= 1
    ensures NoFall(Line(payload, bitSamples), 1, IDLE_LEAD_BITS * bitSamples)
  {
    forall i | 1 <= i < IDLE_LEAD_BITS * bitSamples ensures !IsFalling(Line(payload, bitSamples), i) {
      IdleAt(payload, bitSamples, i);
    }
  }

  lemma {:induction false} TrailQuiet(payload: seq<int>, bitSamples: nat)
    requires payload != [] && bitSamples >= 1
    ensures NoFall(Line(payload, bitSamples), FrameStart(|payload|) * bitSamples, |Line(payload, bitSamples)|)
  {
    hide Line, FrameStart;
    IdleAt(payload, bitSamples, 0);
    forall i | FrameStart(|payload|) * bitSamples <= i < |Line(payload, bitSamples)|
      ensures !IsFalling(Line(payload, bitSamples), i)
    {
      IdleAt(payload, bitSamples, i);
    }
  }

  lemma StartsFall(payload: seq<int>, bitSamples: nat, k: nat)
    requires k < |payload| && bitSamples >= 1
    ensures IsFalling(Line(payload, bitSamples), FrameStart(k) * bitSamples)
  {
    var start := FrameStart(k) * bitSamples;
    SampleAt(payload, bitSamples, k, 0, 0);
    if k == 0 {
      IdleAt(payload, bitSamples, start - 1);
    } else {
      NextFrameStart(k - 1, bitSamples);
      HighBehindData(payload, bitSamples, k - 1, FRAME_CELLS * bitSamples - 1);
    }
  }

  /** From any resume point before frame `k`, exactly the frames from `k` on are found. */
  lemma {:induction false} ScanFrames(payload: seq<int>, bitPeriod: real, bitSamples: nat, k: nat, idx: nat)
    requires payload != [] && k <= |payload|
    requires bitSamples == Round(bitPeriod) && Aligned(bitPeriod, bitSamples)
    requires 1 <= idx <= FrameStart(k) * bitSamples
    requires NoFall(Line(payload, bitSamples), idx, FrameStart(k) * bitSamples)
    ensures bitPeriod >= 1.0
    ensures Scan(Line(payload, bitSamples), idx, bitPeriod) == PayloadEvents(payload, bitPeriod, bitSamples)[k..]
    decreases |payload| - k
  {
    ResumeInGap(bitPeriod, bitSamples);
    hide Line, FrameStart, Scan, NoFall, FrameEvent, Aligned, Round;
    if k == |payload| {
      LineEnds(payload, bitSamples);
      SkipQuiet(Line(payload, bitSamples), idx, |Line(payload, bitSamples)|, bitPeriod);
    } else {
      var next := FrameStep(payload, bitPeriod, bitSamples, k, idx);
      ScanFrames(payload, bitPeriod, bitSamples, k + 1, next);
      var events := PayloadEvents(payload, bitPeriod, bitSamples);
      assert events[k..] == [events[k]] + events[k + 1..];
    }
  }

  lemma {:induction false} FrameStep(payload: seq<int>, bitPeriod: real, bitSamples: nat, k: nat, idx: nat)
    returns (next: nat)
    requires k < |payload| && bitSamples == Round(bitPeriod) && Aligned(bitPeriod, bitSamples)
    requires bitPeriod >= 1.0 && 1 <= idx <= FrameStart(k) * bitSamples
    requires NoFall(Line(payload, bitSamples), idx, FrameStart(k) * bitSamples)
    ensures 1 <= next <= FrameStart(k + 1) * bitSamples
    ensures NoFall(Line(payload, bitSamples), next, FrameStart(k + 1) * bitSamples)
    ensures Scan(Line(payload, bitSamples), idx, bitPeriod)
         == [FrameEvent(payload[k], k, bitPeriod, bitSamples)] + Scan(Line(payload, bitSamples), next, bitPeriod)
  {
    var start := FrameStart(k) * bitSamples;
    next := start + Round(bitPeriod * 10.0);
    ResumeInGap(bitPeriod, bitSamples);
    NextFrameStart(k, bitSamples);
    assert Scan(Line(payload, bitSamples), idx, bitPeriod) == Scan(Line(payload, bitSamples), start, bitPeriod) by {
      StartsFall(payload, bitSamples, k);
      SkipQuiet(Line(payload, bitSamples), idx, start, bitPeriod);
    }
    ScanAtStart(payload, bitPeriod, bitSamples, k);
    assert NoFall(Line(payload, bitSamples), next, FrameStart(k + 1) * bitSamples) by {
      QuietBehindData(payload, bitSamples, k);
    }
  }

  lemma {:induction false} ScanAtStart(payload: seq<int>, bitPeriod: real, bitSamples: nat, k: nat)
    requires k < |payload| && bitSamples == Round(bitPeriod) && Aligned(bitPeriod, bitSamples)
    requires bitPeriod >= 1.0 && FrameStart(k) * bitSamples >= 1 && Round(bitPeriod * 10.0) >= 0
    ensures var start := FrameStart(k) * bitSamples;
      Scan(Line(payload, bitSamples), start, bitPeriod)
      == [FrameEvent(payload[k], k, bitPeriod, bitSamples)]
         + Scan(Line(payload, bitSamples), start + Round(bitPeriod * 10.0), bitPeriod)
  {
    StartsFall(payload, bitSamples, k);
    DecodeFrameAt(payload, bitPeriod, bitSamples, k);
    ScanStep(Line(payload, bitSamples), FrameStart(k) * bitSamples, bitPeriod, []);
  }


  /** Generate, then decode with the same rate: what a caller hopes for. */
  ghost predicate RoundTrips(sampleRate: int, baud: int, payload: seq<int>) {
    var g := Generator(baud, payload, EIGHT_N_ONE, sampleRate);
    && g.Signal().Ok?
    && Decoded(g.Signal().value, sampleRate, baud, EIGHT_N_ONE)
       == Ok(PayloadEvents(g.Payload(), sampleRate as real / baud as real,
                           Round(sampleRate as real / baud as real)))
  }

  /** The condition a caller can check from the two rates alone. */
  predicate RatesAgree(sampleRate: int, baud: int) {
    baud != 0 &&
    var bitPeriod := sampleRate as real / baud as real;
    Aligned(bitPeriod, Round(bitPeriod))
  }

  lemma {:induction false} AlignedRoundTrip(sampleRate: int, baud: int, payload: seq<int>)
    requires RatesAgree(sampleRate, baud)
    ensures RoundTrips(sampleRate, baud, payload)
  {
    var g := Generator(baud, payload, EIGHT_N_ONE, sampleRate);
    var bitPeriod := sampleRate as real / baud as real;
    var bitSamples := Round(bitPeriod);
    ResumeInGap(bitPeriod, bitSamples);
    LineEnds(g.Payload(), bitSamples);
    ScanFrames(g.Payload(), bitPeriod, bitSamples, 0, 1);
    assert PayloadEvents(g.Payload(), bitPeriod, bitSamples)[0..] == PayloadEvents(g.Payload(), bitPeriod, bitSamples);
  }

  /** A byte one, the most fragile payload that has a lone bit: low from bit 1 to bit 7. */
  lemma {:induction false} OneByteDetectsDrift(payload: seq<int>, bitPeriod: real, bitSamples: nat)
    requires payload == [1]
    requires bitPeriod >= 1.0 && bitSamples == Round(bitPeriod)
    requires Scan(Line(payload, bitSamples), 1, bitPeriod) == PayloadEvents(payload, bitPeriod, bitSamples)
    ensures Round(bitPeriod * 8.5) < 9 * bitSamples <= Round(bitPeriod * 9.5)
  {
    hide Line, Scan, DataSamples;
    var line, start := Line(payload, bitSamples), FrameStart(0) * bitSamples;
    ScanIsFaithful(line, 1, bitPeriod);
    var event := PayloadEvents(payload, bitPeriod, bitSamples)[0];
    assert event in Scan(line, 1, bitPeriod) && event.start == start;
    assert bitPeriod * (9 as real + 0.5) == bitPeriod * 9.5;
    LineEnds(payload, bitSamples);
    assert Round(bitPeriod * 9.5) >= 2 * bitSamples;
    OneByteLow(payload, bitSamples, Round(bitPeriod * 9.5));
    if Round(bitPeriod * 8.5) >= 9 * bitSamples {
      OneByteReadsHigh(payload, bitPeriod, bitSamples);
      assert false;
    }
  }

  lemma {:induction false} OneByteReadsHigh(payload: seq<int>, bitPeriod: real, bitSamples: nat)
    requires payload == [1]
    requires bitPeriod >= 1.0 && Round(bitPeriod * 8.5) >= 9 * bitSamples
    requires DecodedFrame(Line(payload, bitSamples), FrameStart(0) * bitSamples, bitPeriod, 8).Some?
    ensures DecodedFrame(Line(payload, bitSamples), FrameStart(0) * bitSamples, bitPeriod, 8).value.value >= 128
  {
    var line, start := Line(payload, bitSamples), FrameStart(0) * bitSamples;
    assert bitPeriod * (8 as real + 0.5) == bitPeriod * 8.5;
    CenterMonotone(start, bitPeriod, 8, 9);
    OneByteHigh(payload, bitSamples, Round(bitPeriod * 8.5));
    var samples := DataSamples(line, start, bitPeriod, 8);
    assert samples[7];
    assert Pow2(7) == 128;
  }

  lemma {:induction false} OneByteLow(payload: seq<int>, bitSamples: nat, o: nat)
    requires payload == [1]
    ensures 2 * bitSamples <= o < 9 * bitSamples ==>
      && FrameStart(0) * bitSamples + o < |Line(payload, bitSamples)|
      && !Line(payload, bitSamples)[FrameStart(0) * bitSamples + o]
  {
    if 2 * bitSamples <= o < 9 * bitSamples {
      var c, rest := SplitOffset(o, bitSamples);
      InCell(o, bitSamples, c, rest, 9);
      InCell(o, bitSamples, c, rest, 2);
      SampleAt(payload, bitSamples, 0, c, o);
      UpperBitsOfOne(c - 1);
    }
  }

  lemma UpperBitsOfOne(i: nat)
    requires i >= 1
    ensures !Bit(1, i)
  {
    assert Pow2(i) == 2 * Pow2(i - 1);
    DivModUnique(1, Pow2(i), 0, 1);
  }

  lemma {:induction false} OneByteHigh(payload: seq<int>, bitSamples: nat, o: nat)
    requires payload == [1]
    requires 9 * bitSamples <= o && FrameStart(0) * bitSamples + o < |Line(payload, bitSamples)|
    ensures Line(payload, bitSamples)[FrameStart(0) * bitSamples + o]
  {
    LineLength(payload);
    StretchLength(LineLevels(payload, EIGHT_N_ONE), bitSamples);
    if o < FRAME_CELLS * bitSamples {
      HighBehindData(payload, bitSamples, 0, o);
    } else {
      NextFrameStart(0, bitSamples);
      IdleAt(payload, bitSamples, FrameStart(0) * bitSamples + o);
    }
  }

  /** With one sample per bit, bit 0 of this byte is read one bit too late. */
  lemma {:induction false} OneSamplePerBitFails(payload: seq<int>, bitPeriod: real, period: real, bitSamples: nat)
    requires payload == [2] && 1.0 <= bitPeriod && Round(bitPeriod * 1.5) == 2 && bitSamples == 1
    ensures Scan(Line(payload, bitSamples), 1, bitPeriod) != PayloadEvents(payload, period, bitSamples)
  {
    var events := Scan(Line(payload, bitSamples), 1, bitPeriod);
    ScanIsFaithful(Line(payload, bitSamples), 1, bitPeriod);
    if events == PayloadEvents(payload, period, bitSamples) {
      assert events[0] in events && events[0].start == FrameStart(0) * bitSamples && events[0].value == 2;
      OneSamplePerBitReadsOdd(payload, bitPeriod, bitSamples);
      assert false;
    }
  }

  lemma {:induction false} OneSamplePerBitReadsOdd(payload: seq<int>, bitPeriod: real, bitSamples: nat)
    requires payload == [2] && 1.0 <= bitPeriod && Round(bitPeriod * 1.5) == 2 && bitSamples == 1
    requires DecodedFrame(Line(payload, bitSamples), FrameStart(0) * bitSamples, bitPeriod, 8).Some?
    ensures DecodedFrame(Line(payload, bitSamples), FrameStart(0) * bitSamples, bitPeriod, 8).value.value % 2 == 1
  {
    assert bitPeriod * (1 as real + 0.5) == bitPeriod * 1.5;
    SampleAt(payload, bitSamples, 0, 2, 2);
    assert Bit(2, 1) by { assert Pow2(1) == 2; }
    OddValue(DataSamples(Line(payload, bitSamples), FrameStart(0) * bitSamples, bitPeriod, 8));
  }

  lemma {:induction false} OddValue(bits: seq<bool>)
    requires bits != [] && bits[0]
    ensures ValueLsb(bits) % 2 == 1
  {
    if |bits| > 1 {
      OddValue(bits[..|bits| - 1]);
      assert Pow2(|bits| - 1) == 2 * Pow2(|bits| - 2);
    } else {
      assert bits[..0] == [] && Pow2(0) == 1;
    }
  }

  /** Two payloads, both with a lone bit, decide whether the rates agree. */
  lemma {:induction false} TwoPayloadsDecide(sampleRate: int, baud: int)
    requires RoundTrips(sampleRate, baud, [1]) && RoundTrips(sampleRate, baud, [2])
    ensures RatesAgree(sampleRate, baud)
  {
    var bitPeriod := sampleRate as real / baud as real;
    OneByteDetectsDrift([1], bitPeriod, Round(bitPeriod));
    if Round(bitPeriod) == 1 {
      assert bitPeriod == 1.0;
      OneSamplePerBitFails([2], bitPeriod, bitPeriod, 1);
    }
  }

  /** Every payload survives exactly when the rates agree. */
  lemma {:induction false} RoundTripExactly(sampleRate: int, baud: int)
    ensures (forall payload :: RoundTrips(sampleRate, baud, payload)) <==> RatesAgree(sampleRate, baud)
  {
    if RatesAgree(sampleRate, baud) {
      forall payload ensures RoundTrips(sampleRate, baud, payload) {
        AlignedRoundTrip(sampleRate, baud, payload);
      }
    } else if forall payload :: RoundTrips(sampleRate, baud, payload) {
      assert RoundTrips(sampleRate, baud, [1]) && RoundTrips(sampleRate, baud, [2]);
      TwoPayloadsDecide(sampleRate, baud);
    }
  }

  /** Nine samples per bit can be too few: 949 samples a second at 100 baud. */
  lemma NineSamplesCanFail()
    ensures Round(949 as real / 100 as real) == 9
    ensures !RatesAgree(949, 100)
    ensures exists payload :: !RoundTrips(949, 100, payload)
  {
    RoundIs(9.49, 9);
    RoundIs(9.49 * 8.5, 81);
    RoundTripExactly(949, 100);
  }
}
