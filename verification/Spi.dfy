/** SPI: the four-mode waveform generator (tests/synth.py) and the mode discriminator
    (src/slidko/measure/spi.py). */
module Spi {
  import opened Numbers
  import opened Results
  import opened Signals

  // ---------------------------------------------------------------------------------------
  // Generator
  // ---------------------------------------------------------------------------------------

  /** CPOL is the idle level of the clock; CPHA says whether the second edge samples. */
  datatype Mode = Mode(cpol: bool, cpha: bool)

  datatype Waves = Waves(sck: seq<bool>, mosi: seq<bool>, cs: seq<bool>)

  datatype SpiError = SpeedIsZero

  const LEAD_CELLS := 2
  const IDLE_CELLS := 4

  /** The two clock half periods of one bit. */
  function ClockPair(mode: Mode): seq<bool> {
    if mode.cpha then [!mode.cpol, mode.cpol] else [mode.cpol, !mode.cpol]
  }

  function ClockCells(bits: seq<bool>, mode: Mode): seq<bool> {
    if bits == [] then [] else ClockPair(mode) + ClockCells(bits[1..], mode)
  }

  function DataCells(bits: seq<bool>): seq<bool> {
    if bits == [] then [] else [bits[0], bits[0]] + DataCells(bits[1..])
  }

  /** The levels of one line, a half period each, around the burst. */
  function Framed(outer: bool, inner: bool, burst: seq<bool>): seq<bool> {
    Fill(outer, IDLE_CELLS) + (Fill(inner, LEAD_CELLS) + burst + Fill(inner, LEAD_CELLS)) + Fill(outer, IDLE_CELLS)
  }

  /** The signal one sample later. */
  function Delayed(first: bool, s: seq<bool>): seq<bool> {
    if s == [] then [] else [first] + s[..|s| - 1]
  }

  /** What `generate` promises for the given bits and half period. */
  function BurstWaves(bits: seq<bool>, mode: Mode, half: nat): Waves {
    var mosi := Stretch(Framed(false, false, DataCells(bits)), half);
    Waves(Stretch(Framed(mode.cpol, mode.cpol, ClockCells(bits, mode)), half),
          if mode.cpha then Delayed(false, mosi) else mosi,
          Stretch(Framed(true, false, Fill(false, 2 * |bits|)), half))
  }

  datatype Generator = Generator(mode: Mode, payload: seq<int>, speed: int, sampleRate: int) {

    /** `payload or [0x55]`. */
    function Payload(): seq<int> {
      if payload == [] then [0x55] else payload
    }

    function HalfPeriod(): (half: nat)
      requires speed != 0
      ensures half >= 1
    {
      Max(1, Round(sampleRate as real / speed as real) / 2)
    }

    function Signal(): Result<Waves, SpiError> {
      if speed == 0 then Err(SpeedIsZero) else Ok(BurstWaves(PayloadBits(Payload()), mode, HalfPeriod()))
    }

    method Generate() returns (r: Result<Waves, SpiError>)
      ensures r == Signal()
    {
      if speed == 0 {
        return Err(SpeedIsZero);
      }
      var waves := BuildWaves(Payload(), mode, HalfPeriod());
      return Ok(waves);
    }
  }

  /** The segment lists of `generate`, expanded. */
  method BuildWaves(bytes: seq<int>, mode: Mode, half: nat) returns (waves: Waves)
    requires half >= 1
    ensures waves == BurstWaves(PayloadBits(bytes), mode, half)
  {
    var clkBits, mosiBits, burst := BurstSegments(bytes, mode, half);
    var clk := Lead(mode.cpol, half) + clkBits + Trail(mode.cpol, half);
    var mosi := Lead(false, half) + mosiBits + Trail(false, half);
    var cs := [Segment(true, half * IDLE_CELLS), Segment(false, burst), Segment(true, half * IDLE_CELLS)];
    FrameExpands(ClockCells(PayloadBits(bytes), mode), mode.cpol, half);
    FrameExpands(DataCells(PayloadBits(bytes)), false, half);
    SelectExpands(burst, |PayloadBits(bytes)|, half);
    var mosiArray := Expand(mosi);
    if mode.cpha {
      FirstLow(PayloadBits(bytes), half);
      mosiArray := mosiArray[..1] + mosiArray[..|mosiArray| - 1];
    }
    return Waves(Expand(clk), mosiArray, Expand(cs));
  }

  /** The idle and lead segments before the burst. */
  function Lead(level: bool, half: nat): seq<Segment> {
    [Segment(level, half * IDLE_CELLS), Segment(level, half * LEAD_CELLS)]
  }

  function Trail(level: bool, half: nat): seq<Segment> {
    [Segment(level, half * LEAD_CELLS), Segment(level, half * IDLE_CELLS)]
  }

  lemma {:induction false} FirstLow(bits: seq<bool>, half: nat)
    requires half >= 1
    ensures var mosi := Stretch(Framed(false, false, DataCells(bits)), half);
      |mosi| >= 1 && !mosi[0] && mosi[..1] + mosi[..|mosi| - 1] == Delayed(false, mosi)
  {
    StretchCell(Framed(false, false, DataCells(bits)), half, 0, 0);
  }

  lemma {:induction false} FrameExpands(cells: seq<bool>, idle: bool, half: nat)
    requires half >= 1
    ensures Expand(Lead(idle, half) + Uniform(cells, half) + Trail(idle, half))
         == Stretch(Framed(idle, idle, cells), half)
  {
    hide Expand, Stretch, Uniform;
    NothingExpands(half);
    TwoHolds([], [], idle, IDLE_CELLS, LEAD_CELLS, half);
    assert [] + Lead(idle, half) == Lead(idle, half);
    var lead: seq<bool> := [] + Fill(idle, IDLE_CELLS) + Fill(idle, LEAD_CELLS);
    AppendLevels(Lead(idle, half), lead, cells, half);
    TwoHolds(Lead(idle, half) + Uniform(cells, half), lead + cells, idle, LEAD_CELLS, IDLE_CELLS, half);
    assert lead + cells + Fill(idle, LEAD_CELLS) + Fill(idle, IDLE_CELLS) == Framed(idle, idle, cells);
  }

  lemma NothingExpands(half: nat)
    ensures Expand([]) == Stretch([], half)
  {
  }

  lemma {:induction false} TwoHolds(segments: seq<Segment>, levels: seq<bool>, level: bool, m: nat, n: nat, half: nat)
    requires Expand(segments) == Stretch(levels, half) && m > 0 && n > 0 && half > 0
    ensures Expand(segments + [Segment(level, half * m), Segment(level, half * n)])
         == Stretch(levels + Fill(level, m) + Fill(level, n), half)
  {
    hide Expand, Stretch;
    AppendHold(segments, levels, level, m, half);
    AppendHold(segments + [Segment(level, half * m)], levels + Fill(level, m), level, n, half);
    assert segments + [Segment(level, half * m), Segment(level, half * n)]
        == segments + [Segment(level, half * m)] + [Segment(level, half * n)];
  }

  lemma {:induction false} SelectExpands(burst: int, bits: nat, half: nat)
    requires burst == half * (2 * LEAD_CELLS + 2 * bits) && half >= 1
    ensures Expand([Segment(true, half * IDLE_CELLS), Segment(false, burst), Segment(true, half * IDLE_CELLS)])
         == Stretch(Framed(true, false, Fill(false, 2 * bits)), half)
  {
    var s1, l1 := [Segment(true, half * IDLE_CELLS)], Fill(true, IDLE_CELLS);
    var s2, l2 := s1 + [Segment(false, burst)], l1 + Fill(false, 2 * LEAD_CELLS + 2 * bits);
    AppendHold([], [], true, IDLE_CELLS, half);
    assert [] + s1 == s1 && [] + l1 == l1;
    AppendHold(s1, l1, false, 2 * LEAD_CELLS + 2 * bits, half);
    AppendHold(s2, l2, true, IDLE_CELLS, half);
    assert l2 + Fill(true, IDLE_CELLS) == Framed(true, false, Fill(false, 2 * bits));
    assert s2 + [Segment(true, half * IDLE_CELLS)]
        == [Segment(true, half * IDLE_CELLS), Segment(false, burst), Segment(true, half * IDLE_CELLS)];
  }

  lemma {:induction false} CellsSnoc(bits: seq<bool>, more: seq<bool>, mode: Mode)
    ensures ClockCells(bits + more, mode) == ClockCells(bits, mode) + ClockCells(more, mode)
    ensures DataCells(bits + more) == DataCells(bits) + DataCells(more)
  {
    if bits == [] {
      assert bits + more == more;
    } else {
      assert (bits + more)[1..] == bits[1..] + more && (bits + more)[0] == bits[0];
      CellsSnoc(bits[1..], more, mode);
    }
  }

  /** The outer loop of `generate`. */
  method BurstSegments(bytes: seq<int>, mode: Mode, half: nat)
    returns (clk: seq<Segment>, mosi: seq<Segment>, burst: int)
    ensures clk == Uniform(ClockCells(PayloadBits(bytes), mode), half)
    ensures mosi == Uniform(DataCells(PayloadBits(bytes)), half)
    ensures burst == half * (2 * LEAD_CELLS + 2 * |PayloadBits(bytes)|)
  {
    clk, mosi, burst := [], [], half * LEAD_CELLS;
    for i := 0 to |bytes|
      invariant clk == Uniform(ClockCells(PayloadBits(bytes[..i]), mode), half)
      invariant mosi == Uniform(DataCells(PayloadBits(bytes[..i])), half)
      invariant burst == half * LEAD_CELLS + i * (16 * half)
    {
      assert bytes[..i + 1][..i] == bytes[..i];
      var bits := BitsMsb(bytes[i], 8);
      clk, mosi, burst := BitSegments(clk, mosi, burst, bits, mode, half, PayloadBits(bytes[..i]));
      MulSucc(i, 16 * half);
    }
    assert bytes[..|bytes|] == bytes;
    burst := burst + half * LEAD_CELLS;
    PayloadBitsLength(bytes);
  }

  /** The inner loop of `generate`: the bits of one byte. */
  method BitSegments(clk0: seq<Segment>, mosi0: seq<Segment>, burst0: int, bits: seq<bool>, mode: Mode, half: nat,
                     ghost before: seq<bool>)
    returns (clk: seq<Segment>, mosi: seq<Segment>, burst: int)
    requires clk0 == Uniform(ClockCells(before, mode), half)
    requires mosi0 == Uniform(DataCells(before), half)
    ensures clk == Uniform(ClockCells(before + bits, mode), half)
    ensures mosi == Uniform(DataCells(before + bits), half)
    ensures burst == burst0 + |bits| * (2 * half)
  {
    hide ClockCells, DataCells, Uniform;
    clk, mosi, burst := clk0, mosi0, burst0;
    ghost var done := before;
    for j := 0 to |bits|
      invariant done == before + bits[..j]
      invariant clk == Uniform(ClockCells(done, mode), half)
      invariant mosi == Uniform(DataCells(done), half)
      invariant burst == burst0 + j * (2 * half)
    {
      MulSucc(j, 2 * half);
      var bit := bits[j];
      var (first, second) := BitPhase(mode, half);
      BitAppended(done, bit, mode, half);
      clk := clk + [first, second];
      mosi := mosi + [Segment(bit, half), Segment(bit, half)];
      burst := burst + 2 * half;
      done := done + [bit];
    }
    assert done == before + bits;
  }

  /** The clock half of `_bit_phase_segments`. */
  function BitPhase(mode: Mode, half: nat): (Segment, Segment) {
    var idle, active := mode.cpol, !mode.cpol;
    if !mode.cpha then (Segment(idle, half), Segment(active, half))
    else (Segment(active, half), Segment(idle, half))
  }

  lemma {:induction false} BitAppended(done: seq<bool>, bit: bool, mode: Mode, half: nat)
    ensures Uniform(ClockCells(done + [bit], mode), half)
         == Uniform(ClockCells(done, mode), half) + [BitPhase(mode, half).0, BitPhase(mode, half).1]
    ensures Uniform(DataCells(done + [bit]), half)
         == Uniform(DataCells(done), half) + [Segment(bit, half), Segment(bit, half)]
  {
    CellsSnoc(done, [bit], mode);
    OneBitCells(bit, mode);
    UniformPair(ClockCells(done, mode), ClockPair(mode)[0], ClockPair(mode)[1], half);
    UniformPair(DataCells(done), bit, bit, half);
  }

  lemma {:induction false} OneBitCells(bit: bool, mode: Mode)
    ensures ClockCells([bit], mode) == [ClockPair(mode)[0], ClockPair(mode)[1]]
    ensures DataCells([bit]) == [bit, bit]
  {
    assert [bit][1..] == [];
  }

  lemma {:induction false} UniformPair(levels: seq<bool>, a: bool, b: bool, half: nat)
    ensures Uniform(levels + [a, b], half) == Uniform(levels, half) + [Segment(a, half), Segment(b, half)]
  {
  }
}
