/** UART frames: the waveform generator (tests/synth.py) and the native decoder
    (src/slidko/decode/native_uart.py). */
module Uart {
  import opened Numbers
  import opened Results
  import opened Signals

  datatype Parity = NoParity | EvenParity | OddParity

  datatype Format = Format(dataBits: nat, parity: Parity, stopBits: real)

  const EIGHT_N_ONE := Format(8, NoParity, 1.0)
  const EIGHT_E_TWO := Format(8, EvenParity, 2.0)

  const IDLE_LEAD_BITS := 4
  const IDLE_GAP_BITS := 3
  const IDLE_TRAIL_BITS := 4

  datatype UartError = BaudIsZero | BaudTooHigh | NotEightNOne

  // ---------------------------------------------------------------------------------------
  // Generator
  // ---------------------------------------------------------------------------------------

  function Ones(bits: seq<bool>): nat {
    if bits == [] then 0
    else Ones(bits[..|bits| - 1]) + (if bits[|bits| - 1] then 1 else 0)
  }

  function ParityLevels(bits: seq<bool>, parity: Parity): seq<bool> {
    match parity
    case NoParity => []
    case EvenParity => [Ones(bits) % 2 == 1]
    case OddParity => [Ones(bits) % 2 == 0]
  }

  /** The levels of one frame, a bit period each: start, data, parity, stop. */
  function FrameLevels(byte: int, format: Format): seq<bool> {
    var data := BitsLsb(byte, format.dataBits);
    [false] + data + ParityLevels(data, format.parity) + Fill(true, Max(0, Round(format.stopBits)))
  }

  method FrameSegments(byte: int, format: Format, bitSamples: nat) returns (segments: seq<Segment>)
    ensures segments == Uniform(FrameLevels(byte, format), bitSamples)
  {
    segments := [Segment(false, bitSamples)];
    var data := BitsLsb(byte, format.dataBits);
    var ones := 0;
    for i := 0 to |data|
      invariant segments == Uniform([false] + data[..i], bitSamples)
      invariant ones == Ones(data[..i])
    {
      assert data[..i + 1][..i] == data[..i];
      segments := segments + [Segment(data[i], bitSamples)];
      ones := ones + (if data[i] then 1 else 0);
    }
    assert data[..|data|] == data;
    ghost var levels := [false] + data;
    if format.parity != NoParity {
      var even := ones % 2;
      var bit := if format.parity == EvenParity then even else 1 - even;
      segments := segments + [Segment(bit == 1, bitSamples)];
      levels := levels + [bit == 1];
    }
    assert levels == [false] + data + ParityLevels(data, format.parity);
    var stop := Max(0, Round(format.stopBits));
    for i := 0 to stop
      invariant segments == Uniform(levels + Fill(true, i), bitSamples)
    {
      segments := segments + [Segment(true, bitSamples)];
    }
  }

  /** A frame and the idle gap behind it. */
  function FrameCell(byte: int, format: Format): seq<bool> {
    FrameLevels(byte, format) + Fill(true, IDLE_GAP_BITS)
  }

  function FrameCells(payload: seq<int>, format: Format): seq<bool> {
    if payload == [] then []
    else FrameCells(payload[..|payload| - 1], format) + FrameCell(payload[|payload| - 1], format)
  }

  /** The levels of the whole line, a bit period each. */
  function LineLevels(payload: seq<int>, format: Format): seq<bool> {
    Fill(true, IDLE_LEAD_BITS) + FrameCells(payload, format) + Fill(true, IDLE_TRAIL_BITS)
  }

  datatype Generator = Generator(baud: int, payload: seq<int>, format: Format, sampleRate: int) {

    /** `payload or [0x55]`. */
    function Payload(): seq<int> {
      if payload == [] then [0x55] else payload
    }

    /** What `generate` promises: every level of the line held for the rounded bit period. */
    function Signal(): Result<seq<bool>, UartError> {
      if baud == 0 then Err(BaudIsZero)
      else
        var bitSamples := Round(sampleRate as real / baud as real);
        if bitSamples < 1 then Err(BaudTooHigh)
        else Ok(Stretch(LineLevels(Payload(), format), bitSamples))
    }

    method Generate() returns (r: Result<seq<bool>, UartError>)
      ensures r == Signal()
    {
      if baud == 0 {
        return Err(BaudIsZero);
      }
      var bitSamples := Round(sampleRate as real / baud as real);
      if bitSamples < 1 {
        return Err(BaudTooHigh);
      }
      var segments := LineSegments(Payload(), format, bitSamples);
      return Ok(Expand(segments));
    }
  }

  method LineSegments(bytes: seq<int>, format: Format, bitSamples: nat) returns (segments: seq<Segment>)
    requires bitSamples > 0
    ensures Expand(segments) == Stretch(LineLevels(bytes, format), bitSamples)
  {
    segments := [Segment(true, bitSamples * IDLE_LEAD_BITS)];
    ghost var lead := Fill(true, IDLE_LEAD_BITS);
    AppendHold([], [], true, IDLE_LEAD_BITS, bitSamples);
    assert [] + segments == segments && [] + lead == lead;
    assert lead + FrameCells(bytes[..0], format) == lead;
    for i := 0 to |bytes|
      invariant Expand(segments) == Stretch(lead + FrameCells(bytes[..i], format), bitSamples)
    {
      var frame := FrameSegments(bytes[i], format, bitSamples);
      AppendByte(segments, lead, bytes, i, format, bitSamples);
      segments := segments + frame;
      segments := segments + [Segment(true, bitSamples * IDLE_GAP_BITS)];
    }
    assert bytes[..|bytes|] == bytes;
    AppendHold(segments, lead + FrameCells(bytes, format), true, IDLE_TRAIL_BITS, bitSamples);
    segments := segments + [Segment(true, bitSamples * IDLE_TRAIL_BITS)];
  }

  lemma {:induction false} FrameCellsSnoc(bytes: seq<int>, i: nat, format: Format)
    requires i < |bytes|
    ensures FrameCells(bytes[..i + 1], format)
         == FrameCells(bytes[..i], format) + FrameLevels(bytes[i], format) + Fill(true, IDLE_GAP_BITS)
  {
    assert bytes[..i + 1][..i] == bytes[..i];
  }

  lemma {:induction false} AppendCell(segments: seq<Segment>, levels: seq<bool>, frame: seq<bool>, bitSamples: nat)
    requires Expand(segments) == Stretch(levels, bitSamples) && bitSamples > 0
    ensures Expand(segments + Uniform(frame, bitSamples) + [Segment(true, bitSamples * IDLE_GAP_BITS)])
         == Stretch(levels + frame + Fill(true, IDLE_GAP_BITS), bitSamples)
  {
    AppendLevels(segments, levels, frame, bitSamples);
    AppendHold(segments + Uniform(frame, bitSamples), levels + frame, true, IDLE_GAP_BITS, bitSamples);
  }

  lemma {:induction false} AppendByte(segments: seq<Segment>, lead: seq<bool>, bytes: seq<int>, i: nat,
                                      format: Format, bitSamples: nat)
    requires i < |bytes| && bitSamples > 0
    requires Expand(segments) == Stretch(lead + FrameCells(bytes[..i], format), bitSamples)
    ensures Expand(segments + Uniform(FrameLevels(bytes[i], format), bitSamples)
                   + [Segment(true, bitSamples * IDLE_GAP_BITS)])
         == Stretch(lead + FrameCells(bytes[..i + 1], format), bitSamples)
  {
    var before, frame, gap := FrameCells(bytes[..i], format), FrameLevels(bytes[i], format), Fill(true, IDLE_GAP_BITS);
    AppendCell(segments, lead + before, frame, bitSamples);
    FrameCellsSnoc(bytes, i, format);
    Regroup(lead, before, frame, gap);
  }

  lemma {:induction false} Regroup(a: seq<bool>, b: seq<bool>, c: seq<bool>, d: seq<bool>)
    ensures (a + b) + c + d == a + (b + c + d)
  {
  }

  // ---------------------------------------------------------------------------------------
  // Decoder
  // ---------------------------------------------------------------------------------------

  datatype ByteEvent = ByteEvent(start: int, end: int, value: nat, ascii: Option<char>, framingError: bool)

  /** What `_decode_uart_byte` returns when the frame is complete. */
  datatype Frame = Frame(value: nat, end: int, stopHigh: bool)

  /** How far behind the start edge the midpoint of a bit lies. */
  function Midpoint(bitPeriod: real, bit: int): real {
    bitPeriod * (bit as real + 0.5)
  }

  /** `bit_center`: the midpoint of a bit, rounded to a sample. */
  function Center(start: int, bitPeriod: real, bit: int): int {
    start + Round(Midpoint(bitPeriod, bit))
  }

  lemma MidpointMonotone(bitPeriod: real, i: int, j: int)
    requires bitPeriod >= 1.0 && 0 <= i <= j
    ensures 0.5 <= Midpoint(bitPeriod, i) <= Midpoint(bitPeriod, j)
  {
    RealMulMonotone(bitPeriod, 0.5, i as real + 0.5);
    RealMulMonotone(bitPeriod, i as real + 0.5, j as real + 0.5);
  }

  lemma CenterMonotone(start: int, bitPeriod: real, i: int, j: int)
    requires bitPeriod >= 1.0 && 0 <= i <= j
    ensures start <= Center(start, bitPeriod, i) <= Center(start, bitPeriod, j)
  {
    var x, y := Midpoint(bitPeriod, i), Midpoint(bitPeriod, j);
    assert 0.5 <= x <= y by { MidpointMonotone(bitPeriod, i, j); }
    RoundMonotone(x, y);
  }

  /** `value |= 1 << i`. */
  function SetBit(value: nat, i: nat): nat {
    if Bit(value, i) then value else value + Pow2(i)
  }

  lemma {:induction false} ValueLsbSnoc(bits: seq<bool>, i: nat)
    requires i < |bits|
    ensures ValueLsb(bits[..i + 1])
         == (if bits[i] then SetBit(ValueLsb(bits[..i]), i) else ValueLsb(bits[..i]))
  {
    assert bits[..i + 1][..i] == bits[..i];
    ValueLsbBound(bits[..i]);
    ClearBit(ValueLsb(bits[..i]), i);
  }

  lemma ClearBit(value: nat, i: nat)
    requires value < Pow2(i)
    ensures SetBit(value, i) == value + Pow2(i)
  {
    DivModUnique(value, Pow2(i), 0, value);
  }

  /** The levels sampled at the midpoints of the data bits. */
  function DataSamples(signal: seq<bool>, start: nat, bitPeriod: real, dataBits: nat): seq<bool>
    requires bitPeriod >= 1.0 && Center(start, bitPeriod, dataBits + 1) < |signal|
  {
    seq(dataBits, i requires 0 <= i < dataBits =>
      (CenterMonotone(start, bitPeriod, i + 1, dataBits + 1);
      signal[Center(start, bitPeriod, i + 1)]))
  }

  lemma {:induction false} SampleStep(signal: seq<bool>, start: nat, bitPeriod: real, dataBits: nat, i: nat)
    requires bitPeriod >= 1.0 && Center(start, bitPeriod, dataBits + 1) < |signal| && i < dataBits
    ensures start <= Center(start, bitPeriod, i + 1) < |signal|
    ensures var samples := DataSamples(signal, start, bitPeriod, dataBits);
      ValueLsb(samples[..i + 1])
      == (if signal[Center(start, bitPeriod, i + 1)] then SetBit(ValueLsb(samples[..i]), i)
          else ValueLsb(samples[..i]))
  {
    CenterMonotone(start, bitPeriod, i + 1, dataBits + 1);
    ValueLsbSnoc(DataSamples(signal, start, bitPeriod, dataBits), i);
  }

  /** The frame that starts at a falling edge; None when its stop bit is cut off. */
  function DecodedFrame(signal: seq<bool>, start: nat, bitPeriod: real, dataBits: nat): Option<Frame>
    requires bitPeriod >= 1.0
  {
    var stop := Center(start, bitPeriod, dataBits + 1);
    if stop >= |signal| then None
    else
      CenterMonotone(start, bitPeriod, 0, dataBits + 1);
      Some(Frame(ValueLsb(DataSamples(signal, start, bitPeriod, dataBits)),
                 start + Round(bitPeriod * (dataBits + 2) as real) - 1,
                 signal[stop]))
  }

  method DecodeByte(signal: seq<bool>, start: nat, bitPeriod: real, dataBits: nat) returns (r: Option<Frame>)
    requires bitPeriod >= 1.0
    ensures r == DecodedFrame(signal, start, bitPeriod, dataBits)
  {
    var stop := Center(start, bitPeriod, dataBits + 1);
    if stop >= |signal| {
      return None;
    }
    CenterMonotone(start, bitPeriod, 0, dataBits + 1);
    var stopHigh := signal[stop];
    var value := 0;
    ghost var samples := DataSamples(signal, start, bitPeriod, dataBits);
    for i := 0 to dataBits
      invariant value == ValueLsb(samples[..i])
    {
      SampleStep(signal, start, bitPeriod, dataBits, i);
      if signal[Center(start, bitPeriod, i + 1)] {
        value := SetBit(value, i);
      }
    }
    assert samples[..dataBits] == samples;
    var end := start + Round(bitPeriod * (dataBits + 2) as real) - 1;
    return Some(Frame(value, end, stopHigh));
  }

  ghost predicate IsFalling(signal: seq<bool>, i: int) {
    0 < i < |signal| && signal[i - 1] && !signal[i]
  }

  function EventOf(start: int, frame: Frame): ByteEvent {
    ByteEvent(start, frame.end, frame.value,
              if 32 <= frame.value < 127 then Some(frame.value as char) else None,
              !frame.stopHigh)
  }

  lemma FrameEndsLater(signal: seq<bool>, start: nat, bitPeriod: real)
    requires bitPeriod >= 1.0 && DecodedFrame(signal, start, bitPeriod, 8).Some?
    ensures DecodedFrame(signal, start, bitPeriod, 8).value.end > start
  {
    assert bitPeriod * 10.0 >= 10.0;
  }

  /** The events that the scan finds from sample `idx` on. */
  function Scan(signal: seq<bool>, idx: nat, bitPeriod: real): seq<ByteEvent>
    requires idx >= 1 && bitPeriod >= 1.0
    decreases |signal| - idx
  {
    if idx >= |signal| then []
    else if signal[idx - 1] && !signal[idx] then
      match DecodedFrame(signal, idx, bitPeriod, 8)
      case None => Scan(signal, idx + 1, bitPeriod)
      case Some(frame) =>
        FrameEndsLater(signal, idx, bitPeriod);
        [EventOf(idx, frame)] + Scan(signal, frame.end + 1, bitPeriod)
    else Scan(signal, idx + 1, bitPeriod)
  }

  /** Moving one scan step's event to the front of what is still to be found. */
  lemma {:induction false} ScanStep(signal: seq<bool>, idx: nat, bitPeriod: real, events: seq<ByteEvent>)
    requires 1 <= idx < |signal| && bitPeriod >= 1.0
    ensures
      if signal[idx - 1] && !signal[idx] && DecodedFrame(signal, idx, bitPeriod, 8).Some? then
        var frame := DecodedFrame(signal, idx, bitPeriod, 8).value;
        frame.end > idx
        && events + Scan(signal, idx, bitPeriod)
        == events + [EventOf(idx, frame)] + Scan(signal, frame.end + 1, bitPeriod)
      else Scan(signal, idx, bitPeriod) == Scan(signal, idx + 1, bitPeriod)
  {
    if signal[idx - 1] && !signal[idx] && DecodedFrame(signal, idx, bitPeriod, 8).Some? {
      FrameEndsLater(signal, idx, bitPeriod);
    }
  }

  function Abs(x: real): real {
    if x < 0.0 then -x else x
  }

  /** `math.isclose(x, 1.0)` with its default relative tolerance. */
  predicate CloseToOne(x: real) {
    Abs(x - 1.0) <= 0.000000001 * (if Abs(x) > 1.0 then Abs(x) else 1.0)
  }

  /** What `NativeUARTBackend.decode` promises. */
  function Decoded(signal: seq<bool>, sampleRate: int, baud: int, format: Format): Result<seq<ByteEvent>, UartError> {
    if format.parity != NoParity || format.dataBits != 8 || !CloseToOne(format.stopBits) then Err(NotEightNOne)
    else if baud == 0 then Err(BaudIsZero)
    else
      var bitPeriod := sampleRate as real / baud as real;
      if bitPeriod < 1.0 then Err(BaudTooHigh)
      else Ok(Scan(signal, 1, bitPeriod))
  }

  method Decode(signal: seq<bool>, sampleRate: int, baud: int, format: Format)
    returns (r: Result<seq<ByteEvent>, UartError>)
    ensures r == Decoded(signal, sampleRate, baud, format)
  {
    if format.parity != NoParity || format.dataBits != 8 || !CloseToOne(format.stopBits) {
      return Err(NotEightNOne);
    }
    if baud == 0 {
      return Err(BaudIsZero);
    }
    var bitPeriod := sampleRate as real / baud as real;
    if bitPeriod < 1.0 {
      return Err(BaudTooHigh);
    }
    var events := ScanSignal(signal, bitPeriod);
    return Ok(events);
  }

  /** The scan loop of `decode`. */
  method ScanSignal(signal: seq<bool>, bitPeriod: real) returns (events: seq<ByteEvent>)
    requires bitPeriod >= 1.0
    ensures events == Scan(signal, 1, bitPeriod)
  {
    hide Scan, DecodedFrame, EventOf;
    events := [];
    var idx := 1;
    while idx < |signal|
      invariant idx >= 1
      invariant Scan(signal, 1, bitPeriod) == events + Scan(signal, idx, bitPeriod)
      decreases |signal| - idx
    {
      ScanStep(signal, idx, bitPeriod, events);
      if signal[idx - 1] && !signal[idx] {
        var decoded := DecodeByte(signal, idx, bitPeriod, 8);
        if decoded.Some? {
          events := events + [EventOf(idx, decoded.value)];
          idx := decoded.value.end + 1;
          continue;
        }
      }
      idx := idx + 1;
    }
    ScanEnds(signal, idx, bitPeriod);
    assert events + [] == events;
  }

  lemma {:induction false} ScanEnds(signal: seq<bool>, idx: nat, bitPeriod: real)
    requires idx >= 1 && bitPeriod >= 1.0 && idx >= |signal|
    ensures Scan(signal, idx, bitPeriod) == []
  {
  }

  // ---------------------------------------------------------------------------------------
  // Frames and formats, bit by bit
  // ---------------------------------------------------------------------------------------

  lemma {:induction false} ParityIs(data: seq<bool>, parity: Parity)
    ensures var levels := ParityLevels(data, parity);
      && |levels| == (if parity == NoParity then 0 else 1)
      && (parity == EvenParity ==> Ones(data + levels) % 2 == 0)
      && (parity == OddParity ==> Ones(data + levels) % 2 == 1)
  {
    if parity != NoParity {
      assert (data + ParityLevels(data, parity))[..|data|] == data;
    }
  }

  /** A frame is a low start bit, the data bits least significant first, a parity bit that makes
      the ones even or odd, and high stop bits. */
  lemma {:induction false} FrameExactly(byte: int, format: Format)
    ensures var frame, d := FrameLevels(byte, format), format.dataBits;
      var p, s := if format.parity == NoParity then 0 else 1, Max(0, Round(format.stopBits));
      && |frame| == 1 + d + p + s
      && !frame[0]
      && (forall i :: 0 <= i < d ==> frame[1 + i] == Bit(byte, i))
      && (format.parity == EvenParity ==> Ones(frame[1..1 + d + p]) % 2 == 0)
      && (format.parity == OddParity ==> Ones(frame[1..1 + d + p]) % 2 == 1)
      && (forall i :: 1 + d + p <= i < |frame| ==> frame[i])
  {
    hide Bit, Ones, ParityLevels, Round;
    var data := BitsLsb(byte, format.dataBits);
    var parity := ParityLevels(data, format.parity);
    ParityIs(data, format.parity);
    assert FrameLevels(byte, format)[1..1 + |data| + |parity|] == data + parity;
  }

  lemma {:induction false} FramesAlike(payload: seq<int>, format: Format, f: nat, k: nat, i: nat)
    requires forall byte :: |FrameLevels(byte, format)| == f
    requires k < |payload| && i < f + 3
    ensures |FrameCells(payload, format)| == |payload| * (f + 3) && k * (f + 3) + i < |payload| * (f + 3)
    ensures FrameCells(payload, format)[k * (f + 3) + i] == (if i < f then FrameLevels(payload[k], format)[i] else true)
  {
    hide FrameLevels;
    var n := |payload| - 1;
    MulSucc(n, f + 3);
    if n == 0 {
      assert FrameCells(payload[..0], format) == [];
    } else {
      FramesAlike(payload[..n], format, f, if k < n then k else 0, i);
    }
    if k < n {
      assert FrameCells(payload, format)[k * (f + 3) + i] == FrameCells(payload[..n], format)[k * (f + 3) + i];
    }
  }

  /** A line is high for four bits, shows its frames with three high bits behind each, and is high
      for four bits again. */
  lemma {:induction false} LineExactly(payload: seq<int>, format: Format, f: nat, k: nat, i: nat)
    requires f == |FrameLevels(0, format)| && k < |payload| && i < f + 3
    ensures var line, end := LineLevels(payload, format), 4 + |payload| * (f + 3);
      && |line| == end + 4
      && 4 + k * (f + 3) + i < end
      && line[4 + k * (f + 3) + i] == (if i < f then FrameLevels(payload[k], format)[i] else true)
      && (forall c :: 0 <= c < 4 || end <= c < end + 4 ==> line[c])
  {
    hide FrameLevels, FrameCells;
    forall byte ensures |FrameLevels(byte, format)| == f {
      FrameExactly(byte, format);
      FrameExactly(0, format);
    }
    FramesAlike(payload, format, f, k, i);
  }

  /** The generator refuses a zero rate and a bit shorter than half a sample. */
  lemma {:induction false} GeneratedExactly(g: Generator)
    ensures g.Signal() == Err(BaudIsZero) <==> g.baud == 0
    ensures g.Signal() == Err(BaudTooHigh) <==> g.baud != 0 && Round(g.sampleRate as real / g.baud as real) < 1
    ensures g.Signal().Ok? ==>
      var payload, cell := if g.payload == [] then [0x55] else g.payload, Round(g.sampleRate as real / g.baud as real);
      cell >= 1 && g.Signal().value == Stretch(LineLevels(payload, g.format), cell)
  {
    hide Round, LineLevels, Stretch;
  }

  lemma CloseExactly(x: real)
    ensures CloseToOne(x) <==> x >= 1.0 - 0.000000001 && x * (1.0 - 0.000000001) <= 1.0
  {
  }

  /** The decoder takes eight data bits, no parity and one stop bit, up to a billionth; it refuses a
      zero rate and a rate above the sample rate, and scans otherwise. */
  lemma {:induction false} DecodedExactly(signal: seq<bool>, sampleRate: int, baud: int, format: Format)
    ensures var r, stop := Decoded(signal, sampleRate, baud, format), format.stopBits;
      var taken := format.dataBits == 8 && format.parity == NoParity
                   && stop >= 1.0 - 0.000000001 && stop * (1.0 - 0.000000001) <= 1.0;
      && (r == Err(NotEightNOne) <==> !taken)
      && (r == Err(BaudIsZero) <==> taken && baud == 0)
      && (r == Err(BaudTooHigh) <==> taken && baud != 0 && sampleRate as real / baud as real < 1.0)
      && (r.Ok? ==> r.value == Scan(signal, 1, sampleRate as real / baud as real))
  {
    hide Scan, CloseToOne;
    CloseExactly(format.stopBits);
  }
}
