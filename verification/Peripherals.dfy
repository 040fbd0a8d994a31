/** The bit-banged transmitters of the exerciser firmware (firmware/src/hw/peripherals.c) as
    traces of pin writes, and what the host tools make of them. */
module Peripherals {
  import opened Numbers
  import opened Signals
  import Spi
  import SpiMode
  import Uart

  datatype Action = Put(pin: int, level: bool) | Wait(us: nat)

  // ---------------------------------------------------------------------------------------
  // Observing a pin
  // ---------------------------------------------------------------------------------------

  function LevelAfter(trace: seq<Action>, pin: int, level: bool): bool {
    if trace == [] then level
    else
      var a := trace[0];
      LevelAfter(trace[1..], pin, if a.Put? && a.pin == pin then a.level else level)
  }

  /** The pin as an instrument sees it: one sample behind every write, and `rate` samples for
      every microsecond waited. */
  function Samples(trace: seq<Action>, pin: int, level: bool, rate: nat): seq<bool> {
    if trace == [] then []
    else
      match trace[0]
      case Put(p, l) =>
        var now := if p == pin then l else level;
        [now] + Samples(trace[1..], pin, now, rate)
      case Wait(us) => Fill(level, us * rate) + Samples(trace[1..], pin, level, rate)
  }

  lemma {:induction false} SamplesConcat(a: seq<Action>, b: seq<Action>, pin: int, level: bool, rate: nat)
    ensures Samples(a + b, pin, level, rate)
         == Samples(a, pin, level, rate) + Samples(b, pin, LevelAfter(a, pin, level), rate)
    ensures LevelAfter(a + b, pin, level) == LevelAfter(b, pin, LevelAfter(a, pin, level))
  {
    if a == [] {
      assert a + b == b;
    } else {
      assert (a + b)[0] == a[0] && (a + b)[1..] == a[1..] + b;
      var now := if a[0].Put? && a[0].pin == pin then a[0].level else level;
      SamplesConcat(a[1..], b, pin, now, rate);
      var head := if a[0].Put? then [now] else Fill(level, a[0].us * rate);
      SpiMode.Associate(head, Samples(a[1..], pin, now, rate),
                        Samples(b, pin, LevelAfter(a[1..], pin, now), rate));
    }
  }

  lemma {:induction false} SamplesAlign(trace: seq<Action>, p: int, q: int, x: bool, y: bool, rate: nat)
    ensures |Samples(trace, p, x, rate)| == |Samples(trace, q, y, rate)|
  {
    if trace != [] {
      var a := trace[0];
      SamplesAlign(trace[1..], p, q, if a.Put? && a.pin == p then a.level else x,
                   if a.Put? && a.pin == q then a.level else y, rate);
    }
  }

  // ---------------------------------------------------------------------------------------
  // Pin writes
  // ---------------------------------------------------------------------------------------

  class Gpio {
    var trace: seq<Action>

    constructor ()
      ensures trace == []
    {
      trace := [];
    }

    /** `gpio_put`. */
    method Put(pin: int, level: bool)
      modifies this
      ensures trace == old(trace) + [Action.Put(pin, level)]
    {
      trace := trace + [Action.Put(pin, level)];
    }

    /** `busy_wait_us`. */
    method BusyWait(us: nat)
      modifies this
      ensures trace == old(trace) + [Wait(us)]
    {
      trace := trace + [Wait(us)];
    }

    /** `spi_send_bit`. */
    method SpiSendBit(sck: int, mosi: int, bit: bool, mode: Spi.Mode, halfPeriod: nat)
      modifies this
      ensures trace == old(trace) + BitTrace(sck, mosi, bit, mode, halfPeriod)
    {
      if !mode.cpha {
        Put(mosi, bit);
        BusyWait(halfPeriod);
        Put(sck, !mode.cpol);
        BusyWait(halfPeriod);
        Put(sck, mode.cpol);
      } else {
        Put(sck, !mode.cpol);
        Put(mosi, bit);
        BusyWait(halfPeriod);
        Put(sck, mode.cpol);
        BusyWait(halfPeriod);
      }
    }

    /** The pin writes of `hw_spi_tx`. */
    method SpiTx(sck: int, mosi: int, cs: int, mode: int, speed: nat, payload: seq<int>)
      modifies this
      ensures trace == old(trace) + SpiTrace(sck, mosi, cs, ModeOf(mode), HalfPeriod(speed), payload)
    {
      hide BurstTrace, ModeOf;
      var m := ModeOf(mode);
      var halfPeriod := if speed > 0 then 500000 / speed else 1;
      if halfPeriod == 0 {
        halfPeriod := 1;
      }
      Put(sck, m.cpol);
      Put(cs, true);
      Put(cs, false);
      SpiSendBytes(sck, mosi, payload, m, halfPeriod);
      Put(cs, true);
    }

    /** The outer loop of `hw_spi_tx`. */
    method SpiSendBytes(sck: int, mosi: int, payload: seq<int>, mode: Spi.Mode, halfPeriod: nat)
      modifies this
      ensures trace == old(trace) + BurstTrace(sck, mosi, PayloadBits(payload), mode, halfPeriod)
    {
      hide BurstTrace, PayloadBits, BitsMsb;
      ghost var before := trace;
      NoBurst(sck, mosi, payload[..0], mode, halfPeriod);
      for i := 0 to |payload|
        invariant trace == before + BurstTrace(sck, mosi, PayloadBits(payload[..i]), mode, halfPeriod)
      {
        ghost var sent := PayloadBits(payload[..i]);
        SpiSendByte(sck, mosi, payload[i], mode, halfPeriod);
        PayloadBitsStep(payload, i);
        BurstConcat(sck, mosi, sent, BitsMsb(payload[i], 8), mode, halfPeriod);
      }
      assert payload[..|payload|] == payload;
    }

    /** The inner loop of `hw_spi_tx`: the bits of one byte, most significant first. */
    method SpiSendByte(sck: int, mosi: int, byte: int, mode: Spi.Mode, halfPeriod: nat)
      modifies this
      ensures trace == old(trace) + BurstTrace(sck, mosi, BitsMsb(byte, 8), mode, halfPeriod)
    {
      hide BurstTrace, BitTrace, Bit;
      ghost var bits := BitsMsb(byte, 8);
      ghost var before := trace;
      NoBits(sck, mosi, bits[..0], mode, halfPeriod);
      var b := 7;
      while b >= 0
        invariant -1 <= b <= 7
        invariant trace == before + BurstTrace(sck, mosi, bits[..7 - b], mode, halfPeriod)
      {
        SpiSendBit(sck, mosi, Bit(byte, b), mode, halfPeriod);
        assert bits[..8 - b] == bits[..7 - b] + [bits[7 - b]];
        BurstConcat(sck, mosi, bits[..7 - b], [bits[7 - b]], mode, halfPeriod);
        BurstOne(sck, mosi, bits[7 - b], mode, halfPeriod);
        b := b - 1;
      }
      assert bits[..8] == bits;
    }

    /** `uart_put_bit`. */
    method UartPutBit(pin: int, level: bool, inverted: bool, period: nat)
      modifies this
      ensures trace == old(trace) + HoldTrace(pin, level, inverted, period)
    {
      Put(pin, if inverted then !level else level);
      BusyWait(period);
    }

    /** `uart_send_byte`. */
    method UartSendByte(pin: int, byte: int, format: Uart.Format, stopBits: nat, inverted: bool, period: nat)
      requires format.stopBits == stopBits as real
      modifies this
      ensures trace == old(trace) + LevelsTrace(pin, Uart.FrameLevels(byte, format), inverted, period)
    {
      hide LevelsTrace, BitsLsb, Uart.ParityLevels;
      ghost var data := BitsLsb(byte, format.dataBits);
      ghost var parity := Uart.ParityLevels(data, format.parity);
      UartPutBit(pin, false, inverted, period);
      LevelsOne(pin, false, inverted, period);
      var ones := UartPutData(pin, byte, format.dataBits, inverted, period);
      LevelsConcat(pin, [false], data, inverted, period);
      UartPutParity(pin, format.parity, ones, data, inverted, period);
      LevelsConcat(pin, [false] + data, parity, inverted, period);
      UartPutStop(pin, stopBits, inverted, period);
      LevelsConcat(pin, [false] + data + parity, Fill(true, stopBits), inverted, period);
      RoundOfInteger(stopBits);
      assert Uart.FrameLevels(byte, format) == [false] + data + parity + Fill(true, stopBits);
    }

    /** The data bits, least significant first, counting the ones. */
    method UartPutData(pin: int, byte: int, dataBits: nat, inverted: bool, period: nat) returns (ones: nat)
      modifies this
      ensures trace == old(trace) + LevelsTrace(pin, BitsLsb(byte, dataBits), inverted, period)
      ensures ones == Uart.Ones(BitsLsb(byte, dataBits))
    {
      ghost var before, data := trace, BitsLsb(byte, dataBits);
      ones := 0;
      for i := 0 to dataBits
        invariant trace == before + LevelsTrace(pin, data[..i], inverted, period)
        invariant ones == Uart.Ones(data[..i])
      {
        var bit := Bit(byte, i);
        if bit {
          ones := ones + 1;
        }
        UartPutBit(pin, bit, inverted, period);
        LevelsSnoc(pin, data[..i], bit, inverted, period);
        assert data[..i + 1] == data[..i] + [bit] && data[..i + 1][..i] == data[..i];
      }
      assert data[..dataBits] == data;
    }

    method UartPutParity(pin: int, parity: Uart.Parity, ones: nat, ghost data: seq<bool>, inverted: bool, period: nat)
      requires ones == Uart.Ones(data)
      modifies this
      ensures trace == old(trace) + LevelsTrace(pin, Uart.ParityLevels(data, parity), inverted, period)
    {
      if parity == Uart.EvenParity {
        UartPutBit(pin, ones % 2 != 0, inverted, period);
        LevelsOne(pin, ones % 2 != 0, inverted, period);
      } else if parity == Uart.OddParity {
        UartPutBit(pin, ones % 2 == 0, inverted, period);
        LevelsOne(pin, ones % 2 == 0, inverted, period);
      }
    }

    method UartPutStop(pin: int, stopBits: nat, inverted: bool, period: nat)
      modifies this
      ensures trace == old(trace) + LevelsTrace(pin, Fill(true, stopBits), inverted, period)
    {
      ghost var before := trace;
      for s := 0 to stopBits
        invariant trace == before + LevelsTrace(pin, Fill(true, s), inverted, period)
      {
        UartPutBit(pin, true, inverted, period);
        LevelsSnoc(pin, Fill(true, s), true, inverted, period);
        assert Fill(true, s + 1) == Fill(true, s) + [true];
      }
    }

    /** The pin writes of `hw_uart_tx`. */
    method UartTx(pin: int, baud: nat, format: Uart.Format, stopBits: nat, inverted: bool, payload: seq<int>)
      requires format.stopBits == stopBits as real
      modifies this
      ensures trace == old(trace) + UartTrace(pin, baud, format, inverted, payload)
    {
      hide PayloadLevels, LevelsTrace, Uart.FrameLevels;
      Put(pin, if inverted then false else true);
      NoLevels(pin, payload[..0], format, inverted, if baud > 0 then 1000000 / baud else 100);
      var period := if baud > 0 then 1000000 / baud else 100;
      ghost var before := trace;
      for i := 0 to |payload|
        invariant trace == before + LevelsTrace(pin, PayloadLevels(payload[..i], format), inverted, period)
      {
        UartSendByte(pin, payload[i], format, stopBits, inverted, period);
        PayloadLevelsSnoc(payload, i, format);
        LevelsConcat(pin, PayloadLevels(payload[..i], format), Uart.FrameLevels(payload[i], format), inverted, period);
      }
      assert payload[..|payload|] == payload;
    }
  }

  // ---------------------------------------------------------------------------------------
  // SPI
  // ---------------------------------------------------------------------------------------

  function ModeOf(mode: int): Spi.Mode {
    Spi.Mode(mode == 2 || mode == 3, mode == 1 || mode == 3)
  }

  function HalfPeriod(speed: nat): nat {
    var us := if speed > 0 then 500000 / speed else 1;
    if us == 0 then 1 else us
  }

  function BitTrace(sck: int, mosi: int, bit: bool, mode: Spi.Mode, halfPeriod: nat): seq<Action> {
    if !mode.cpha then
      [Put(mosi, bit), Wait(halfPeriod), Put(sck, !mode.cpol), Wait(halfPeriod), Put(sck, mode.cpol)]
    else
      [Put(sck, !mode.cpol), Put(mosi, bit), Wait(halfPeriod), Put(sck, mode.cpol), Wait(halfPeriod)]
  }

  function BurstTrace(sck: int, mosi: int, bits: seq<bool>, mode: Spi.Mode, halfPeriod: nat): seq<Action> {
    if bits == [] then []
    else BitTrace(sck, mosi, bits[0], mode, halfPeriod) + BurstTrace(sck, mosi, bits[1..], mode, halfPeriod)
  }

  function SpiTrace(sck: int, mosi: int, cs: int, mode: Spi.Mode, halfPeriod: nat, payload: seq<int>): seq<Action> {
    [Put(sck, mode.cpol), Put(cs, true), Put(cs, false)]
    + BurstTrace(sck, mosi, PayloadBits(payload), mode, halfPeriod)
    + [Put(cs, true)]
  }

  lemma {:induction false} BurstConcat(sck: int, mosi: int, a: seq<bool>, b: seq<bool>, mode: Spi.Mode, halfPeriod: nat)
    ensures BurstTrace(sck, mosi, a + b, mode, halfPeriod)
         == BurstTrace(sck, mosi, a, mode, halfPeriod) + BurstTrace(sck, mosi, b, mode, halfPeriod)
  {
    if a == [] {
      assert a + b == b;
    } else {
      assert (a + b)[0] == a[0] && (a + b)[1..] == a[1..] + b;
      BurstConcat(sck, mosi, a[1..], b, mode, halfPeriod);
    }
  }

  lemma {:induction false} BurstOne(sck: int, mosi: int, bit: bool, mode: Spi.Mode, halfPeriod: nat)
    ensures BurstTrace(sck, mosi, [bit], mode, halfPeriod) == BitTrace(sck, mosi, bit, mode, halfPeriod)
  {
    assert [bit][1..] == [];
  }

  lemma {:induction false} PayloadBitsStep(payload: seq<int>, i: nat)
    requires i < |payload|
    ensures PayloadBits(payload[..i + 1]) == PayloadBits(payload[..i]) + BitsMsb(payload[i], 8)
  {
    assert payload[..i + 1][..i] == payload[..i];
  }

  // ---------------------------------------------------------------------------------------
  // UART
  // ---------------------------------------------------------------------------------------

  function HoldTrace(pin: int, level: bool, inverted: bool, period: nat): seq<Action> {
    [Put(pin, if inverted then !level else level), Wait(period)]
  }

  /** Every level written, then held for the bit period. */
  function LevelsTrace(pin: int, levels: seq<bool>, inverted: bool, period: nat): seq<Action> {
    if levels == [] then []
    else HoldTrace(pin, levels[0], inverted, period) + LevelsTrace(pin, levels[1..], inverted, period)
  }

  function UartPeriod(baud: nat): nat {
    if baud > 0 then 1000000 / baud else 100
  }

  /** Idle, then the frames of the payload. */
  function UartTrace(pin: int, baud: nat, format: Uart.Format, inverted: bool, payload: seq<int>): seq<Action> {
    [Put(pin, !inverted)] + LevelsTrace(pin, PayloadLevels(payload, format), inverted, UartPeriod(baud))
  }

  /** The frames of the payload back to back. */
  function PayloadLevels(payload: seq<int>, format: Uart.Format): seq<bool> {
    if payload == [] then []
    else PayloadLevels(payload[..|payload| - 1], format) + Uart.FrameLevels(payload[|payload| - 1], format)
  }

  lemma NoBits(sck: int, mosi: int, bits: seq<bool>, mode: Spi.Mode, halfPeriod: nat)
    requires bits == []
    ensures BurstTrace(sck, mosi, bits, mode, halfPeriod) == []
  {
  }

  lemma NoBurst(sck: int, mosi: int, payload: seq<int>, mode: Spi.Mode, halfPeriod: nat)
    requires payload == []
    ensures BurstTrace(sck, mosi, PayloadBits(payload), mode, halfPeriod) == []
  {
  }

  lemma NoLevels(pin: int, payload: seq<int>, format: Uart.Format, inverted: bool, period: nat)
    requires payload == []
    ensures LevelsTrace(pin, PayloadLevels(payload, format), inverted, period) == []
  {
  }

  lemma {:induction false} PayloadLevelsSnoc(payload: seq<int>, i: nat, format: Uart.Format)
    requires i < |payload|
    ensures PayloadLevels(payload[..i + 1], format)
         == PayloadLevels(payload[..i], format) + Uart.FrameLevels(payload[i], format)
  {
    assert payload[..i + 1][..i] == payload[..i];
  }

  lemma {:induction false} LevelsConcat(pin: int, a: seq<bool>, b: seq<bool>, inverted: bool, period: nat)
    ensures LevelsTrace(pin, a + b, inverted, period)
         == LevelsTrace(pin, a, inverted, period) + LevelsTrace(pin, b, inverted, period)
  {
    if a == [] {
      assert a + b == b;
    } else {
      assert (a + b)[0] == a[0] && (a + b)[1..] == a[1..] + b;
      LevelsConcat(pin, a[1..], b, inverted, period);
    }
  }

  lemma {:induction false} LevelsOne(pin: int, level: bool, inverted: bool, period: nat)
    ensures LevelsTrace(pin, [level], inverted, period) == HoldTrace(pin, level, inverted, period)
  {
    assert [level][1..] == [];
  }

  lemma {:induction false} LevelsSnoc(pin: int, levels: seq<bool>, level: bool, inverted: bool, period: nat)
    ensures LevelsTrace(pin, levels + [level], inverted, period)
         == LevelsTrace(pin, levels, inverted, period) + HoldTrace(pin, level, inverted, period)
  {
    LevelsConcat(pin, levels, [level], inverted, period);
    LevelsOne(pin, level, inverted, period);
  }
}
