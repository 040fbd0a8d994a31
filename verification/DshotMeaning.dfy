/** DShot in bits and nanoseconds: the checksum, the table of timings, what the decoder
    (src/slidko/measure/dshot.py) reads from any capture, and what the firmware's encoder
    (firmware/src/protocol/timing.c) makes of any 16-bit value. */
module DshotMeaning {
  import opened Numbers
  import opened Results
  import opened Signals
  import opened PulseLengths
  import opened Dshot

  // ---------------------------------------------------------------------------------------
  // The checksum
  // ---------------------------------------------------------------------------------------

  /** Exclusive or, bit by bit. */
  lemma {:induction false} XorBits(a: nat, b: nat, i: nat)
    ensures Bit(Xor(a, b), i) <==> Bit(a, i) != Bit(b, i)
    decreases i
  {
    hide Bit, Xor;
    if a == 0 && b == 0 {
      XorZero(0);
      ZeroBit(i);
    } else {
      XorStep(a, b);
      var x := Xor(a, b);
      assert x / 2 == Xor(a / 2, b / 2) && x % 2 == (a + b) % 2;
      if i == 0 {
        BitZero(x);
        BitZero(a);
        BitZero(b);
      } else {
        BitHalf(x, i - 1);
        BitHalf(a, i - 1);
        BitHalf(b, i - 1);
        XorBits(a / 2, b / 2, i - 1);
      }
    }
  }

  lemma {:induction false} BitOfSixteenth(x: int, i: nat)
    ensures Bit(x / 16, i) == Bit(x, i + 4)
  {
    hide Bit;
    assert x / 2 / 2 / 2 / 2 == x / 16;
    BitHalf(x, i + 3);
    BitHalf(x / 2, i + 2);
    BitHalf(x / 2 / 2, i + 1);
    BitHalf(x / 2 / 2 / 2, i);
  }

  lemma {:induction false} BitOfLow(x: int, i: nat)
    requires i < 4
    ensures Bit(x % 16, i) == Bit(x, i)
  {
    hide Bit;
    if i == 0 {
      BitZero(x % 16);
      BitZero(x);
    } else {
      assert x % 16 / 2 == x / 2 % 8;
      BitHalf(x % 16, i - 1);
      BitHalf(x, i - 1);
      BitOfEight(x / 2, i - 1);
    }
  }

  lemma {:induction false} BitOfEight(x: int, i: nat)
    requires i < 3
    ensures Bit(x % 8, i) == Bit(x, i)
  {
    hide Bit;
    if i == 0 {
      BitZero(x % 8);
      BitZero(x);
    } else {
      BitHalf(x % 8, i - 1);
      BitHalf(x, i - 1);
      assert x % 8 / 2 == x / 2 % 4;
      if i == 1 {
        BitZero(x / 2 % 4);
        BitZero(x / 2);
      } else {
        BitHalf(x / 2 % 4, 0);
        BitHalf(x / 2, 0);
        BitZero(x / 2 % 4 / 2);
        BitZero(x / 2 / 2);
      }
    }
  }

  /** Each checksum bit is the parity of the same bit of the three nibbles. */
  lemma {:induction false} ChecksumExactly(data: nat, i: nat)
    requires i < 4
    ensures Bit(Checksum(data), i) <==> ((Bit(data, i) != Bit(data, i + 4)) != Bit(data, i + 8))
  {
    hide Bit, Xor;
    BitOfLow(Xor(Xor(data, data / 16), data / 256), i);
    XorBits(Xor(data, data / 16), data / 256, i);
    XorBits(data, data / 16, i);
    BitOfSixteenth(data, i);
    assert data / 16 / 16 == data / 256;
    BitOfSixteenth(data, i + 4);
    BitOfSixteenth(data / 16, i);
  }

  // ---------------------------------------------------------------------------------------
  // The table
  // ---------------------------------------------------------------------------------------

  /** Three rates are known. A one is high for three quarters of the nominal bit of `10^6 / rate`
      nanoseconds, a zero for half as long; the tabulated bit is the nominal one within 0.2 percent. */
  lemma TableExactly(rate: int)
    ensures TimingOf(rate).Some? <==> rate == 150 || rate == 300 || rate == 600
    ensures TimingOf(rate).Some? ==>
      var t := TimingOf(rate).value;
      && t.t1hNs * rate as real == 750000.0
      && t.t0hNs * rate as real == 375000.0
      && 998000.0 <= t.periodNs * rate as real <= 1002000.0
  {
  }

  // ---------------------------------------------------------------------------------------
  // Reading any capture
  // ---------------------------------------------------------------------------------------

  /** A pulse is a one when it is longer than nine sixteenths of the nominal bit. */
  ghost predicate ReadsOne(samples: int, sampleRate: int, rate: int)
    requires sampleRate > 0
  {
    samples as real * rate as real * 1000000000.0 > 562500.0 * sampleRate as real
  }

  lemma {:induction false} LongExactly(samples: int, sampleRate: int, rate: int)
    requires sampleRate > 0 && TimingOf(rate).Some?
    ensures Long(samples, TimingOf(rate).value, sampleRate) <==> ReadsOne(samples, sampleRate, rate)
  {
    var t, s, r, h := TimingOf(rate).value, sampleRate as real, rate as real, samples as real;
    var d := 1000000000.0 / s;
    TableExactly(rate);
    assert d * s == 1000000000.0;
    var middle := (t.t0hNs + t.t1hNs) / 2.0;
    assert middle * r == 562500.0;
    ScaleMore(h * d, middle, r * s);
    assert (h * d) * (r * s) == h * r * (d * s);
    assert middle * (r * s) == (middle * r) * s;
  }

  lemma ScaleMore(x: real, y: real, c: real)
    requires c > 0.0
    ensures x > y <==> x * c > y * c
  {
  }

  /** Sixteen pulses read as bits, the first the most significant. */
  lemma {:induction false} MsbBits(bits: seq<bool>, i: nat)
    requires i < |bits|
    ensures Bit(ValueMsb(bits), |bits| - 1 - i) == bits[i]
  {
    hide Bit;
    var n := |bits| - 1;
    var front := ValueMsb(bits[..n]);
    if i == n {
      BitZero(ValueMsb(bits));
    } else {
      assert ValueMsb(bits) / 2 == front;
      BitHalf(ValueMsb(bits), n - 1 - i);
      MsbBits(bits[..n], i);
    }
  }

  ghost predicate PulseIsOne(c: seq<bool>, k: nat, sampleRate: int, rate: int)
    requires sampleRate > 0 && k < |HighPulses(c)|
  {
    ReadsOne(HighPulses(c)[k], sampleRate, rate)
  }

  /** Pulse `12 + k` is the parity of the pulses four, eight and twelve before it. */
  ghost predicate ParityOfPulses(c: seq<bool>, k: nat, sampleRate: int, rate: int)
    requires sampleRate > 0 && |HighPulses(c)| >= 16 && k < 4
  {
    PulseIsOne(c, 12 + k, sampleRate, rate)
    == ((PulseIsOne(c, k, sampleRate, rate) != PulseIsOne(c, k + 4, sampleRate, rate))
        != PulseIsOne(c, k + 8, sampleRate, rate))
  }

  ghost predicate IsReading(c: seq<bool>, sampleRate: int, rate: int, reading: Reading)
    requires sampleRate > 0 && |HighPulses(c)| >= 16
  {
    && reading.value.Some? && 0 <= reading.value.value < 2048
    && (forall k: nat :: k < 11 ==> Bit(reading.value.value, 10 - k) == PulseIsOne(c, k, sampleRate, rate))
    && reading.telemetry == PulseIsOne(c, 11, sampleRate, rate)
    && (reading.checksumOk <==> forall k: nat :: k < 4 ==> ParityOfPulses(c, k, sampleRate, rate))
  }

  lemma {:induction false} ReadingBits(c: seq<bool>, sampleRate: int, rate: int) returns (frame: nat)
    requires sampleRate > 0 && TimingOf(rate).Some? && |HighPulses(c)| >= 16
    ensures frame < 65536
    ensures Decoded(c, sampleRate, rate) == Ok(ReadingOf(frame))
    ensures forall k: nat :: k < 16 ==> Bit(frame, 15 - k) == PulseIsOne(c, k, sampleRate, rate)
  {
    hide Bit, Long, TimingOf, HighPulses, ReadingOf, ReadsOne, ValueMsb;
    var highs := HighPulses(c);
    var bits := BitsRead(highs[..16], TimingOf(rate).value, sampleRate);
    frame := ValueMsb(bits);
    MsbBound(bits);
    FramesFit();
    forall k: nat | k < 16 ensures Bit(frame, 15 - k) == PulseIsOne(c, k, sampleRate, rate) {
      LongExactly(highs[k], sampleRate, rate);
      MsbBits(bits, k);
    }
  }

  lemma {:induction false} MsbBound(bits: seq<bool>)
    ensures ValueMsb(bits) < Pow2(|bits|)
  {
    if bits != [] {
      MsbBound(bits[..|bits| - 1]);
    }
  }

  lemma {:induction false} NibbleEquality(a: nat, b: nat)
    requires a < 16 && b < 16
    ensures a == b <==>
      Bit(a, 0) == Bit(b, 0) && Bit(a, 1) == Bit(b, 1) && Bit(a, 2) == Bit(b, 2) && Bit(a, 3) == Bit(b, 3)
  {
    hide Bit;
    SumOfBits(a);
    SumOfBits(b);
  }

  lemma {:induction false} SumOfBits(a: nat)
    requires a < 16
    ensures a == (if Bit(a, 0) then 1 else 0) + (if Bit(a, 1) then 2 else 0) + (if Bit(a, 2) then 4 else 0)
                 + (if Bit(a, 3) then 8 else 0)
  {
    hide Bit;
    BitZero(a);
    BitHalf(a, 0);
    BitZero(a / 2);
    BitHalf(a, 1);
    BitHalf(a / 2, 0);
    BitZero(a / 2 / 2);
    BitHalf(a, 2);
    BitHalf(a / 2, 1);
    BitHalf(a / 2 / 2, 0);
    BitZero(a / 2 / 2 / 2);
  }

  /** Checksum bit `i` of a frame is the parity of the bits four, eight and twelve above it. */
  ghost predicate ParityOfBits(frame: nat, i: nat) {
    Bit(frame, i) == ((Bit(frame, i + 4) != Bit(frame, i + 8)) != Bit(frame, i + 12))
  }

  lemma {:induction false} FrameBit(frame: nat, i: nat)
    ensures Bit(frame / 16 / 2, i) == Bit(frame, i + 5)
    ensures i < 4 ==> (Bit(Checksum(frame / 16), i) == Bit(frame % 16, i) <==> ParityOfBits(frame, i))
  {
    hide Bit, Checksum;
    BitOfSixteenth(frame, i + 1);
    BitHalf(frame / 16, i);
    if i < 4 {
      BitOfSixteenth(frame, i);
      BitOfSixteenth(frame, i + 4);
      BitOfSixteenth(frame, i + 8);
      BitOfLow(frame, i);
      ChecksumExactly(frame / 16, i);
    }
  }

  /** A frame, bit by bit. */
  lemma {:induction false} FrameSays(frame: nat)
    requires frame < 65536
    ensures var reading := ReadingOf(frame);
      && reading.value.Some? && 0 <= reading.value.value < 2048
      && (forall i: nat :: i < 11 ==> Bit(reading.value.value, i) == Bit(frame, i + 5))
      && reading.telemetry == Bit(frame, 4)
      && (reading.checksumOk <==>
          ParityOfBits(frame, 0) && ParityOfBits(frame, 1) && ParityOfBits(frame, 2) && ParityOfBits(frame, 3))
  {
    hide Bit, Checksum, ParityOfBits;
    var data := frame / 16;
    forall i: nat ensures Bit(data / 2, i) == Bit(frame, i + 5) {
      FrameBit(frame, i);
    }
    BitOfSixteenth(frame, 0);
    BitZero(data);
    FrameBit(frame, 0);
    FrameBit(frame, 1);
    FrameBit(frame, 2);
    FrameBit(frame, 3);
    NibbleEquality(Checksum(data), frame % 16);
  }

  /** On any capture: without sixteen pulses there is no frame; else pulses 0 to 10 are the value,
      most significant bit first, pulse 11 the telemetry bit, and the frame is sound exactly when
      each of pulses 12 to 15 is the parity of the pulses four, eight and twelve before it. */
  lemma {:induction false} DecodedExactly(c: seq<bool>, sampleRate: int, rate: int)
    requires sampleRate > 0 && TimingOf(rate).Some?
    ensures Decoded(c, sampleRate, rate).Ok?
    ensures var reading := Decoded(c, sampleRate, rate).value;
      if |HighPulses(c)| < 16 then reading == Reading(None, false, false)
      else IsReading(c, sampleRate, rate, reading)
  {
    hide Bit, ReadingOf, PulseIsOne, ParityOfPulses, HighPulses, TimingOf, Long;
    if |HighPulses(c)| >= 16 {
      var frame := ReadingBits(c, sampleRate, rate);
      FrameSays(frame);
      ReadingOfPulses(c, sampleRate, rate, frame);
    }
  }

  lemma {:induction false} ReadingOfPulses(c: seq<bool>, sampleRate: int, rate: int, frame: nat)
    requires sampleRate > 0 && |HighPulses(c)| >= 16 && frame < 65536
    requires forall k: nat :: k < 16 ==> Bit(frame, 15 - k) == PulseIsOne(c, k, sampleRate, rate)
    ensures IsReading(c, sampleRate, rate, ReadingOf(frame))
  {
    hide Bit, ReadingOf, PulseIsOne, HighPulses, ParityOfBits, ParityOfPulses;
    FrameSays(frame);
    var value := ReadingOf(frame).value.value;
    forall k: nat | k < 11 ensures Bit(value, 10 - k) == PulseIsOne(c, k, sampleRate, rate) {
      assert Bit(value, 10 - k) == Bit(frame, 10 - k + 5);
    }
    forall k: nat | k < 4 ensures ParityOfPulses(c, k, sampleRate, rate) <==> ParityOfBits(frame, 3 - k) {
      SameParity(c, sampleRate, rate, frame, k);
    }
    assert ParityOfPulses(c, 0, sampleRate, rate) <==> ParityOfBits(frame, 3);
    assert ParityOfPulses(c, 1, sampleRate, rate) <==> ParityOfBits(frame, 2);
    assert ParityOfPulses(c, 2, sampleRate, rate) <==> ParityOfBits(frame, 1);
    assert ParityOfPulses(c, 3, sampleRate, rate) <==> ParityOfBits(frame, 0);
  }

  lemma SameParity(c: seq<bool>, sampleRate: int, rate: int, frame: nat, k: nat)
    requires sampleRate > 0 && |HighPulses(c)| >= 16 && k < 4
    requires forall k: nat :: k < 16 ==> Bit(frame, 15 - k) == PulseIsOne(c, k, sampleRate, rate)
    ensures ParityOfPulses(c, k, sampleRate, rate) <==> ParityOfBits(frame, 3 - k)
  {
    hide Bit, PulseIsOne, HighPulses;
    assert Bit(frame, 15 - (12 + k)) == PulseIsOne(c, 12 + k, sampleRate, rate);
    assert Bit(frame, 15 - k) == PulseIsOne(c, k, sampleRate, rate);
    assert Bit(frame, 15 - (k + 4)) == PulseIsOne(c, k + 4, sampleRate, rate);
    assert Bit(frame, 15 - (k + 8)) == PulseIsOne(c, k + 8, sampleRate, rate);
  }

  // ---------------------------------------------------------------------------------------
  // Encoding any value
  // ---------------------------------------------------------------------------------------

  lemma LowTwelve(packet: nat, crc: nat)
    requires crc < 16
    ensures (packet * 16 % 65536 + crc) / 16 == packet % 4096 && (packet * 16 % 65536 + crc) % 16 == crc
  {
    var low := packet % 4096;
    DivModUnique(packet * 16, 65536, packet / 4096, low * 16);
    DivModUnique(low * 16 + crc, 16, low, crc);
  }

  /** The firmware puts the low twelve bits of value and telemetry above the checksum of all
      sixteen that the shifted value keeps. */
  lemma {:induction false} EncoderExactly(value: nat, telemetry: bool)
    requires value < 0x10000
    ensures var packet := (2 * value + (if telemetry then 1 else 0)) % 65536;
      && EncodedFrame(value, telemetry) / 16 == packet % 4096
      && forall i: nat :: i < 4 ==>
           (Bit(EncodedFrame(value, telemetry), i) <==> ((Bit(packet, i) != Bit(packet, i + 4)) != Bit(packet, i + 8)))
  {
    hide Bit, Checksum;
    var packet := (2 * value + (if telemetry then 1 else 0)) % 65536;
    var frame := EncodedFrame(value, telemetry);
    LowTwelve(packet, Checksum(packet));
    forall i: nat | i < 4
      ensures Bit(frame, i) <==> ((Bit(packet, i) != Bit(packet, i + 4)) != Bit(packet, i + 8))
    {
      BitOfLow(frame, i);
      ChecksumExactly(packet, i);
    }
  }

  // ---------------------------------------------------------------------------------------
  // How much a generated capture holds
  // ---------------------------------------------------------------------------------------

  lemma {:induction false} BitsLength(cells: Cells, bits: seq<bool>)
    requires Phased(cells)
    ensures |Expand(cells.Bits(bits))| == |bits| * cells.period
  {
    hide Expand;
    if bits == [] {
      NothingExpanded();
    } else {
      var n := |bits| - 1;
      BitsLength(cells, bits[..n]);
      ExpandConcat(cells.Bits(bits[..n]), cells.Cell(bits[n]));
      assert cells.Cell(bits[n]) == [cells.Cell(bits[n])[0]] + [cells.Cell(bits[n])[1]];
      ExpandConcat([cells.Cell(bits[n])[0]], [cells.Cell(bits[n])[1]]);
      OneExpanded(cells.Cell(bits[n])[0]);
      OneExpanded(cells.Cell(bits[n])[1]);
      MulSucc(n, cells.period);
    }
  }

  lemma NothingExpanded()
    ensures Expand([]) == []
  {
  }

  lemma {:induction false} OneExpanded(s: Segment)
    requires s.count > 0
    ensures |Expand([s])| == s.count
  {
    assert [s][1..] == [];
  }

  lemma {:induction false} TrainLength(cells: Cells, bits: seq<bool>, repeats: nat)
    requires Separate(cells)
    ensures |Expand(cells.Train(bits, repeats))| == cells.gap + repeats * (|bits| * cells.period + cells.gap)
  {
    hide Expand, Cells.Bits;
    var gap := Segment(false, cells.gap);
    OneExpanded(gap);
    if repeats > 0 {
      TrainLength(cells, bits, repeats - 1);
      var before := cells.Train(bits, repeats - 1);
      ExpandConcat(before, cells.Bits(bits));
      ExpandConcat(before + cells.Bits(bits), [gap]);
      BitsLength(cells, bits);
      MulSucc(repeats - 1, |bits| * cells.period + cells.gap);
    }
  }

  lemma {:induction false} HighsAt(cells: Cells, bits: seq<bool>, repeats: nat, j: nat)
    requires Separate(cells) && bits != [] && j < repeats * |bits|
    ensures |Highs(cells.Train(bits, repeats))| == repeats * |bits|
    ensures Highs(cells.Train(bits, repeats))[j] == cells.High(bits[j % |bits|])
  {
    hide Highs, Cells.Train, Separate;
    TrainHighs(cells, bits, repeats);
    if repeats > 0 {
      TrainHighs(cells, bits, repeats - 1);
      OneMoreFrame(cells, bits, repeats);
      MulSucc(repeats - 1, |bits|);
      if j < (repeats - 1) * |bits| {
        HighsAt(cells, bits, repeats - 1, j);
      } else {
        DivModUnique(j, |bits|, repeats - 1, j - (repeats - 1) * |bits|);
      }
    }
  }

  /** A generated capture holds sixteen pulses for every repetition, none for no repetition: the
      bits of the frame, most significant first. It lasts as long as its frames and the 2000 ns
      gaps around them. */
  lemma {:induction false} CaptureExactly(g: Generator, timing: Timing)
    requires TimingOf(g.rate) == Some(timing) && 0 <= g.value <= 2047 && g.sampleRate != 0
    requires Separate(CellsAt(timing, g.sampleRate))
    ensures g.Signal().Ok?
    ensures var n := if g.repeats > 0 then g.repeats else 0;
      var gap, period := Samples(2000.0, g.sampleRate), Samples(timing.periodNs, g.sampleRate);
      && |HighPulses(g.Signal().value)| == 16 * n
      && (forall j :: 0 <= j < 16 * n ==>
            HighPulses(g.Signal().value)[j]
            == Samples(if Bit(Frame(g.value, g.telemetry), 15 - j % 16) then timing.t1hNs else timing.t0hNs,
                       g.sampleRate))
      && |g.Signal().value| == gap + n * (16 * period + gap)
  {
    hide Cells.Train, HighPulses, Expand, Highs, Spaced, Samples, Frame, Bit;
    var cells, bits := CellsAt(timing, g.sampleRate), BitsMsb(Frame(g.value, g.telemetry), 16);
    var n := if g.repeats > 0 then g.repeats else 0;
    TrainSpaced(cells, bits, n);
    SpacedPulses(cells.Train(bits, n));
    TrainHighs(cells, bits, n);
    TrainLength(cells, bits, n);
    forall j | 0 <= j < 16 * n ensures Highs(cells.Train(bits, n))[j] == cells.High(bits[j % 16]) {
      HighsAt(cells, bits, n, j);
    }
  }
}
