/** SPI mode recovery (src/slidko/measure/spi.py): sampling a line on clock edges, and telling
    CPOL and CPHA from the waveform alone. */
module SpiMode {
  import opened Numbers
  import opened Results
  import opened Signals
  import opened Spi

  // ---------------------------------------------------------------------------------------
  // Sampling on clock edges
  // ---------------------------------------------------------------------------------------

  /** The data sampled from here on, when the clock was last at `prev`. A leading edge leaves
      the idle level. */
  function Sampled(clock: seq<bool>, data: seq<bool>, prev: bool, idle: bool, onLeading: bool): seq<bool>
    requires |clock| <= |data|
  {
    if clock == [] then []
    else
      (if clock[0] != prev && (clock[0] != idle) == onLeading then [data[0]] else [])
      + Sampled(clock[1..], data[1..], clock[0], idle, onLeading)
  }

  /** What `_decode_bits` promises: the first sample is never looked at. */
  function DecodedBits(clock: seq<bool>, data: seq<bool>, mode: Mode): seq<bool>
    requires |clock| <= |data|
  {
    if clock == [] then []
    else Sampled(clock[1..], data[1..], mode.cpol, mode.cpol, !mode.cpha)
  }

  method DecodeBits(clock: seq<bool>, data: seq<bool>, mode: Mode) returns (bits: seq<bool>)
    requires |clock| <= |data|
    ensures bits == DecodedBits(clock, data, mode)
  {
    bits := [];
    if clock == [] {
      return;
    }
    var idle, onLeading := mode.cpol, !mode.cpha;
    var prev := idle;
    for i := 1 to |clock|
      invariant bits + Sampled(clock[i..], data[i..], prev, idle, onLeading) == DecodedBits(clock, data, mode)
    {
      var level := clock[i];
      SampledStep(clock[i..], data[i..], prev, idle, onLeading, bits);
      assert clock[i..][1..] == clock[i + 1..] && data[i..][1..] == data[i + 1..];
      if level != prev {
        var leading := level != idle;
        if leading == onLeading {
          bits := bits + [data[i]];
        }
      }
      prev := level;
    }
  }

  lemma {:induction false} SampledStep(clock: seq<bool>, data: seq<bool>, prev: bool, idle: bool, onLeading: bool,
                                       bits: seq<bool>)
    requires 0 < |clock| <= |data|
    ensures bits + Sampled(clock, data, prev, idle, onLeading)
         == (if clock[0] != prev && (clock[0] != idle) == onLeading then bits + [data[0]] else bits)
            + Sampled(clock[1..], data[1..], clock[0], idle, onLeading)
  {
  }

  /** A constant stretch of clock yields at most the sample at its first position. */
  lemma {:induction false} SampledFill(level: bool, d: seq<bool>, clock: seq<bool>, data: seq<bool>,
                                       prev: bool, idle: bool, onLeading: bool)
    requires |clock| == |data| && d != []
    ensures Sampled(Fill(level, |d|) + clock, d + data, prev, idle, onLeading)
         == (if level != prev && (level != idle) == onLeading then [d[0]] else [])
            + Sampled(clock, data, level, idle, onLeading)
  {
    var c, e := Fill(level, |d|) + clock, d + data;
    assert c[1..] == Fill(level, |d| - 1) + clock && e[1..] == d[1..] + data;
    if |d| == 1 {
      assert c[1..] == clock && e[1..] == data;
    } else {
      SampledFill(level, d[1..], clock, data, level, idle, onLeading);
    }
  }

  // ---------------------------------------------------------------------------------------
  // The burst, bit by bit
  // ---------------------------------------------------------------------------------------

  /** The clock over the burst, followed by `tail`. */
  function ClockStream(bits: seq<bool>, mode: Mode, half: nat, tail: seq<bool>): seq<bool> {
    if bits == [] then tail
    else Fill(ClockPair(mode)[0], half) + (Fill(ClockPair(mode)[1], half) + ClockStream(bits[1..], mode, half, tail))
  }

  /** The first half of a data bit; with CPHA set the line lags by one sample, so it starts with
      the level before. */
  function FirstHalf(bit: bool, before: bool, mode: Mode, half: nat): seq<bool>
    requires half >= 1
  {
    if mode.cpha then [before] + Fill(bit, half - 1) else Fill(bit, half)
  }

  /** The data line over the burst, followed by `tail`. */
  function DataStream(bits: seq<bool>, before: bool, mode: Mode, half: nat, tail: seq<bool>): seq<bool>
    requires half >= 1
  {
    if bits == [] then tail
    else FirstHalf(bits[0], before, mode, half)
         + (Fill(bits[0], half) + DataStream(bits[1..], bits[0], mode, half, tail))
  }

  /** The samples that one bit contributes when it starts with the clock at `prev`. */
  function BitSamples(bit: bool, before: bool, prev: bool, mode: Mode, onLeading: bool): seq<bool> {
    var a, b := ClockPair(mode)[0], ClockPair(mode)[1];
    (if a != prev && (a != mode.cpol) == onLeading then [if mode.cpha then before else bit] else [])
    + (if (b != mode.cpol) == onLeading then [bit] else [])
  }

  function BurstSamples(bits: seq<bool>, before: bool, prev: bool, mode: Mode, onLeading: bool): seq<bool> {
    if bits == [] then []
    else BitSamples(bits[0], before, prev, mode, onLeading)
         + BurstSamples(bits[1..], bits[0], ClockPair(mode)[1], mode, onLeading)
  }

  lemma {:induction false} SampledBit(bit: bool, before: bool, prev: bool, mode: Mode, onLeading: bool, half: nat,
                                      clock: seq<bool>, data: seq<bool>)
    requires half >= 1 && |clock| == |data|
    ensures Sampled(Fill(ClockPair(mode)[0], half) + (Fill(ClockPair(mode)[1], half) + clock),
                    FirstHalf(bit, before, mode, half) + (Fill(bit, half) + data), prev, mode.cpol, onLeading)
         == BitSamples(bit, before, prev, mode, onLeading)
           + Sampled(clock, data, ClockPair(mode)[1], mode.cpol, onLeading)
  {
    var a, b := ClockPair(mode)[0], ClockPair(mode)[1];
    var d1, d2 := FirstHalf(bit, before, mode, half), Fill(bit, half);
    SampledFill(a, d1, Fill(b, half) + clock, d2 + data, prev, mode.cpol, onLeading);
    SampledFill(b, d2, clock, data, a, mode.cpol, onLeading);
  }

  lemma {:induction false} SampledBurst(bits: seq<bool>, before: bool, prev: bool, mode: Mode, onLeading: bool,
                                        half: nat, clock: seq<bool>, data: seq<bool>)
    requires half >= 1 && |clock| == |data|
    ensures |ClockStream(bits, mode, half, clock)| == |DataStream(bits, before, mode, half, data)|
    ensures Sampled(ClockStream(bits, mode, half, clock), DataStream(bits, before, mode, half, data),
                    prev, mode.cpol, onLeading)
         == BurstSamples(bits, before, prev, mode, onLeading)
            + Sampled(clock, data, if bits == [] then prev else ClockPair(mode)[1], mode.cpol, onLeading)
  {
    if bits != [] {
      var end := ClockPair(mode)[1];
      var c, d := ClockStream(bits[1..], mode, half, clock), DataStream(bits[1..], bits[0], mode, half, data);
      SampledBurst(bits[1..], bits[0], end, mode, onLeading, half, clock, data);
      SampledBit(bits[0], before, prev, mode, onLeading, half, c, d);
      Associate(BitSamples(bits[0], before, prev, mode, onLeading),
                BurstSamples(bits[1..], bits[0], end, mode, onLeading),
                Sampled(clock, data, end, mode.cpol, onLeading));
    }
  }

  lemma {:induction false} Associate(a: seq<bool>, b: seq<bool>, c: seq<bool>)
    ensures a + (b + c) == (a + b) + c
  {
  }

  // --- which samples those are

  /** On the edges of its own mode a burst yields its bits; on the other edges it yields them
      late (CPHA set) or early (CPHA clear) by one. */
  lemma {:induction false} BurstSamplesAre(bits: seq<bool>, before: bool, prev: bool, mode: Mode, onLeading: bool)
    requires mode.cpha ==> prev == mode.cpol
    ensures BurstSamples(bits, before, prev, mode, onLeading) ==
      if onLeading == !mode.cpha then bits
      else if mode.cpha then ([before] + bits)[..|bits|]
      else if prev == mode.cpol && bits != [] then bits[1..]
      else bits
  {
    if bits != [] {
      BurstSamplesAre(bits[1..], bits[0], ClockPair(mode)[1], mode, onLeading);
      Reassemble(bits, before);
    }
  }

  lemma {:induction false} Reassemble(bits: seq<bool>, before: bool)
    requires bits != []
    ensures [bits[0]] + bits[1..] == bits
    ensures [before] + ([bits[0]] + bits[1..])[..|bits| - 1] == ([before] + bits)[..|bits|]
  {
    assert [bits[0]] + bits[1..] == bits;
  }

  // ---------------------------------------------------------------------------------------
  // The whole capture
  // ---------------------------------------------------------------------------------------

  lemma {:induction false} StretchClock(bits: seq<bool>, mode: Mode, half: nat, tail: seq<bool>)
    ensures Stretch(ClockCells(bits, mode), half) + tail == ClockStream(bits, mode, half, tail)
  {
    if bits == [] {
      assert Stretch(ClockCells(bits, mode), half) + tail == tail;
    } else {
      StretchClock(bits[1..], mode, half, tail);
      StretchPair(ClockPair(mode)[0], ClockPair(mode)[1], ClockCells(bits[1..], mode), half, tail);
      assert ClockPair(mode) == [ClockPair(mode)[0], ClockPair(mode)[1]];
    }
  }

  lemma {:induction false} StretchPair(a: bool, b: bool, rest: seq<bool>, half: nat, tail: seq<bool>)
    ensures Stretch([a, b] + rest, half) + tail
         == Fill(a, half) + (Fill(b, half) + (Stretch(rest, half) + tail))
  {
    StretchCons(b, rest, half);
    StretchCons(a, [b] + rest, half);
    assert [a, b] + rest == [a] + ([b] + rest);
  }

  lemma {:induction false} StretchData(bits: seq<bool>, before: bool, mode: Mode, half: nat, tail: seq<bool>)
    requires half >= 1 && !mode.cpha
    ensures Stretch(DataCells(bits), half) + tail == DataStream(bits, before, mode, half, tail)
  {
    if bits == [] {
      assert Stretch(DataCells(bits), half) + tail == tail;
    } else {
      StretchData(bits[1..], bits[0], mode, half, tail);
      StretchPair(bits[0], bits[0], DataCells(bits[1..]), half, tail);
    }
  }

  /** With CPHA set, the delayed line is the lagging stream. */
  lemma {:induction false} DelayedData(bits: seq<bool>, before: bool, mode: Mode, half: nat, tail: seq<bool>)
    requires half >= 1 && mode.cpha
    ensures Delayed(before, Stretch(DataCells(bits), half) + tail)
         == DataStream(bits, before, mode, half, Delayed(if bits == [] then before else bits[|bits| - 1], tail))
  {
    if bits == [] {
      assert Stretch(DataCells(bits), half) + tail == tail;
    } else {
      var bit, rest := bits[0], Stretch(DataCells(bits[1..]), half) + tail;
      DelayedData(bits[1..], bit, mode, half, tail);
      StretchPair(bit, bit, DataCells(bits[1..]), half, tail);
      assert Stretch(DataCells(bits), half) + tail == Fill(bit, half) + (Fill(bit, half) + rest);
      DelayedBit(bit, before, mode, half, rest);
    }
  }

  lemma {:induction false} DelayedBit(bit: bool, before: bool, mode: Mode, half: nat, rest: seq<bool>)
    requires half >= 1 && mode.cpha
    ensures Delayed(before, Fill(bit, half) + (Fill(bit, half) + rest))
         == FirstHalf(bit, before, mode, half) + (Fill(bit, half) + Delayed(bit, rest))
  {
    DelayedFill(before, bit, half, Fill(bit, half) + rest);
    DelayedFill(bit, bit, half, rest);
    assert [bit] + Fill(bit, half - 1) == Fill(bit, half);
  }

  lemma {:induction false} DelayedFill(before: bool, level: bool, n: nat, rest: seq<bool>)
    requires n >= 1
    ensures Delayed(before, Fill(level, n) + rest) == ([before] + Fill(level, n - 1)) + Delayed(level, rest)
  {
  }

  const QUIET_CELLS := LEAD_CELLS + IDLE_CELLS

  lemma {:induction false} FramedShape(idle: bool, cells: seq<bool>, half: nat)
    ensures Stretch(Framed(idle, idle, cells), half)
         == Fill(idle, QUIET_CELLS * half) + (Stretch(cells, half) + Fill(idle, QUIET_CELLS * half))
  {
    var six := Fill(idle, QUIET_CELLS);
    assert Framed(idle, idle, cells) == six + (cells + six);
    StretchConcat(six, cells + six, half);
    StretchConcat(cells, six, half);
    StretchFill(idle, QUIET_CELLS, half);
  }

  /** The data line behind the burst; with CPHA set its first sample still shows the last bit. */
  function TailData(bits: seq<bool>, mode: Mode, quiet: nat): seq<bool>
    requires bits != []
  {
    if mode.cpha then Delayed(bits[|bits| - 1], Fill(false, quiet)) else Fill(false, quiet)
  }

  lemma {:induction false} MosiShape(bits: seq<bool>, mode: Mode, half: nat)
    requires half >= 1 && bits != []
    ensures var quiet := QUIET_CELLS * half;
      BurstWaves(bits, mode, half).mosi
      == Fill(false, quiet) + DataStream(bits, false, mode, half, TailData(bits, mode, quiet))
  {
    var quiet := QUIET_CELLS * half;
    var pad := Fill(false, quiet);
    FramedShape(false, DataCells(bits), half);
    if mode.cpha {
      DelayedFill(false, false, quiet, Stretch(DataCells(bits), half) + pad);
      assert [false] + Fill(false, quiet - 1) == pad;
      DelayedData(bits, false, mode, half, pad);
    } else {
      StretchData(bits, false, mode, half, pad);
    }
  }

  /** What the edges of the given phase see of a capture: nothing in the quiet lead, the burst,
      and the return to idle behind it. */
  lemma {:induction false} SampledCapture(bits: seq<bool>, mode: Mode, half: nat, onLeading: bool)
    requires half >= 1 && bits != []
    ensures var waves := BurstWaves(bits, mode, half);
      && |waves.sck| == |waves.mosi| > 0
      && Sampled(waves.sck[1..], waves.mosi[1..], mode.cpol, mode.cpol, onLeading)
         == BurstSamples(bits, false, mode.cpol, mode, onLeading)
            + (if !mode.cpha && !onLeading then [false] else [])
  {
    var quiet := QUIET_CELLS * half;
    var tail, tailData := Fill(mode.cpol, quiet), TailData(bits, mode, quiet);
    var clock := ClockStream(bits, mode, half, tail);
    var data := DataStream(bits, false, mode, half, tailData);
    var waves := BurstWaves(bits, mode, half);
    assert waves.sck == Fill(mode.cpol, quiet) + clock by {
      FramedShape(mode.cpol, ClockCells(bits, mode), half);
      StretchClock(bits, mode, half, tail);
    }
    assert waves.mosi == Fill(false, quiet) + data by { MosiShape(bits, mode, half); }
    SampledBurst(bits, false, mode.cpol, mode, onLeading, half, tail, tailData);
    SampledLead(waves.sck, waves.mosi, mode.cpol, quiet, clock, data, onLeading);
    SampledTail(tailData, ClockPair(mode)[1], mode.cpol, onLeading);
  }

  lemma {:induction false} SampledLead(sck: seq<bool>, mosi: seq<bool>, idle: bool, quiet: nat,
                                       clock: seq<bool>, data: seq<bool>, onLeading: bool)
    requires quiet >= 2 && |clock| == |data|
    requires sck == Fill(idle, quiet) + clock && mosi == Fill(false, quiet) + data
    ensures |sck| == |mosi| > 0
    ensures Sampled(sck[1..], mosi[1..], idle, idle, onLeading) == Sampled(clock, data, idle, idle, onLeading)
  {
    DropFirst(sck, idle, quiet, clock);
    DropFirst(mosi, false, quiet, data);
    SampledFill(idle, Fill(false, quiet - 1), clock, data, idle, idle, onLeading);
  }

  lemma {:induction false} SampledTail(tail: seq<bool>, prev: bool, idle: bool, onLeading: bool)
    requires tail != []
    ensures Sampled(Fill(idle, |tail|), tail, prev, idle, onLeading)
         == if idle != prev && !onLeading then [tail[0]] else []
  {
    assert Fill(idle, |tail|) + [] == Fill(idle, |tail|) && tail + [] == tail;
    SampledFill(idle, tail, [], [], prev, idle, onLeading);
  }

  lemma {:induction false} DropFirst(s: seq<bool>, level: bool, n: nat, rest: seq<bool>)
    requires n >= 1 && s == Fill(level, n) + rest
    ensures s != [] && s[1..] == Fill(level, n - 1) + rest
  {
  }

  /** Decoding a generated capture in its own polarity: the payload bits, or exactly a one-bit
      shift of them when the phase is wrong. */
  lemma {:induction false} PhaseTheorem(bits: seq<bool>, mode: Mode, half: nat, cpha: bool)
    requires half >= 1 && bits != []
    ensures |BurstWaves(bits, mode, half).sck| == |BurstWaves(bits, mode, half).mosi|
    ensures DecodedBits(BurstWaves(bits, mode, half).sck, BurstWaves(bits, mode, half).mosi, Mode(mode.cpol, cpha)) ==
      if cpha == mode.cpha then bits
      else if mode.cpha then [false] + bits[..|bits| - 1]
      else bits[1..] + [false]
  {
    SampledCapture(bits, mode, half, !cpha);
    BurstSamplesAre(bits, false, mode.cpol, mode, !cpha);
    assert ([false] + bits)[..|bits|] == [false] + bits[..|bits| - 1];
  }
}
