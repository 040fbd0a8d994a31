/** What the host tools read from the firmware's bit-banged lines. */
module FirmwareWaves {
  import opened Numbers
  import opened Signals
  import opened Peripherals
  import Spi
  import SpiMode
  import Uart

  // ---------------------------------------------------------------------------------------
  // Samples of short traces
  // ---------------------------------------------------------------------------------------

  function Now(a: Action, pin: int, level: bool): bool {
    if a.Put? && a.pin == pin then a.level else level
  }

  function Seen(a: Action, pin: int, level: bool, rate: nat): seq<bool> {
    if a.Put? then [Now(a, pin, level)] else Fill(level, a.us * rate)
  }

  lemma {:induction false} SamplesCons(a: Action, rest: seq<Action>, pin: int, level: bool, rate: nat)
    ensures Samples([a] + rest, pin, level, rate)
         == Seen(a, pin, level, rate) + Samples(rest, pin, Now(a, pin, level), rate)
    ensures LevelAfter([a] + rest, pin, level) == LevelAfter(rest, pin, Now(a, pin, level))
  {
    assert ([a] + rest)[0] == a && ([a] + rest)[1..] == rest;
  }

  lemma {:induction false} SamplesOfTwo(a: Action, b: Action, rest: seq<Action>, pin: int, level: bool, rate: nat)
    ensures var l1 := Now(a, pin, level);
      var l2 := Now(b, pin, l1);
      && Samples([a, b] + rest, pin, level, rate)
         == Seen(a, pin, level, rate) + (Seen(b, pin, l1, rate) + Samples(rest, pin, l2, rate))
      && LevelAfter([a, b] + rest, pin, level) == LevelAfter(rest, pin, l2)
  {
    hide Samples, LevelAfter, Seen;
    assert [a, b] + rest == [a] + ([b] + rest);
    SamplesCons(a, [b] + rest, pin, level, rate);
    SamplesCons(b, rest, pin, Now(a, pin, level), rate);
  }

  lemma {:induction false} SamplesOfOne(a: Action, pin: int, level: bool, rate: nat)
    ensures Samples([a], pin, level, rate) == Seen(a, pin, level, rate)
    ensures LevelAfter([a], pin, level) == Now(a, pin, level)
  {
    assert [a] == [a] + [];
    SamplesCons(a, [], pin, level, rate);
  }

  lemma {:induction false} SamplesOfFive(a: Action, b: Action, c: Action, d: Action, e: Action, pin: int, level: bool,
                                         rate: nat)
    ensures var l1 := Now(a, pin, level);
      var l2 := Now(b, pin, l1);
      var l3 := Now(c, pin, l2);
      var l4 := Now(d, pin, l3);
      && Samples([a, b, c, d, e], pin, level, rate)
         == Seen(a, pin, level, rate) + (Seen(b, pin, l1, rate) + (Seen(c, pin, l2, rate)
            + (Seen(d, pin, l3, rate) + Seen(e, pin, l4, rate))))
      && LevelAfter([a, b, c, d, e], pin, level) == Now(e, pin, l4)
  {
    hide Samples, LevelAfter, Seen;
    var l2 := Now(b, pin, Now(a, pin, level));
    var l4 := Now(d, pin, Now(c, pin, l2));
    assert [a, b, c, d, e] == [a, b] + [c, d, e] && [c, d, e] == [c, d] + [e];
    SamplesOfTwo(a, b, [c, d, e], pin, level, rate);
    SamplesOfTwo(c, d, [e], pin, l2, rate);
    SamplesOfOne(e, pin, l4, rate);
  }

  /** The three writes that open a transfer. */
  function OpenTrace(sck: int, cs: int, mode: Spi.Mode): seq<Action> {
    [Put(sck, mode.cpol), Put(cs, true), Put(cs, false)]
  }

  lemma {:induction false} SamplesOfOpen(sck: int, cs: int, mode: Spi.Mode, pin: int, level0: bool, rate: nat)
    requires sck != cs
    ensures var level := if pin == sck then mode.cpol else level0;
      && (pin != cs ==> Samples(OpenTrace(sck, cs, mode), pin, level0, rate) == [level, level, level])
      && LevelAfter(OpenTrace(sck, cs, mode), pin, level0) == if pin == cs then false else level
  {
    var a, b, c := Put(sck, mode.cpol), Put(cs, true), Put(cs, false);
    var l1 := Now(a, pin, level0);
    assert OpenTrace(sck, cs, mode) == [a] + ([b] + ([c] + []));
    SamplesCons(a, [b] + ([c] + []), pin, level0, rate);
    SamplesCons(b, [c] + [], pin, l1, rate);
    SamplesCons(c, [], pin, Now(b, pin, l1), rate);
  }

  /** The clock over one bit: three or two constant stretches. */
  lemma {:induction false} BitClock(sck: int, mosi: int, bit: bool, mode: Spi.Mode, us: nat, rate: nat)
    requires sck != mosi
    ensures var n := us * rate;
      && LevelAfter(BitTrace(sck, mosi, bit, mode, us), sck, mode.cpol) == mode.cpol
      && Samples(BitTrace(sck, mosi, bit, mode, us), sck, mode.cpol, rate)
         == if mode.cpha then Fill(!mode.cpol, n + 2) + Fill(mode.cpol, n + 1)
            else Fill(mode.cpol, n + 1) + (Fill(!mode.cpol, n + 1) + Fill(mode.cpol, 1))
  {
    if mode.cpha {
      SamplesOfFive(Put(sck, !mode.cpol), Put(mosi, bit), Wait(us), Put(sck, mode.cpol), Wait(us), sck, mode.cpol,
                    rate);
    } else {
      SamplesOfFive(Put(mosi, bit), Wait(us), Put(sck, !mode.cpol), Wait(us), Put(sck, mode.cpol), sck, mode.cpol,
                    rate);
    }
  }

  /** The data line over one bit, cut where the clock is cut. */
  lemma {:induction false} BitData(sck: int, mosi: int, bit: bool, mode: Spi.Mode, us: nat, before: bool, rate: nat)
    requires sck != mosi
    ensures var n := us * rate;
      && LevelAfter(BitTrace(sck, mosi, bit, mode, us), mosi, before) == bit
      && Samples(BitTrace(sck, mosi, bit, mode, us), mosi, before, rate)
         == if mode.cpha then ([before] + Fill(bit, n + 1)) + Fill(bit, n + 1)
            else Fill(bit, n + 1) + (Fill(bit, n + 1) + Fill(bit, 1))
  {
    if mode.cpha {
      SamplesOfFive(Put(sck, !mode.cpol), Put(mosi, bit), Wait(us), Put(sck, mode.cpol), Wait(us), mosi, before, rate);
    } else {
      SamplesOfFive(Put(mosi, bit), Wait(us), Put(sck, !mode.cpol), Wait(us), Put(sck, mode.cpol), mosi, before, rate);
    }
  }

  /** One bit of the firmware's burst contributes exactly that bit to the host's sampler. */
  lemma {:induction false} SampledBit(bit: bool, before: bool, mode: Spi.Mode, n: nat, clock: seq<bool>,
                                      data: seq<bool>)
    requires |clock| == |data|
    ensures
      if mode.cpha then
        SpiMode.Sampled(Fill(!mode.cpol, n + 2) + (Fill(mode.cpol, n + 1) + clock),
                        ([before] + Fill(bit, n + 1)) + (Fill(bit, n + 1) + data), mode.cpol, mode.cpol, false)
        == [bit] + SpiMode.Sampled(clock, data, mode.cpol, mode.cpol, false)
      else
        SpiMode.Sampled(Fill(mode.cpol, n + 1) + (Fill(!mode.cpol, n + 1) + (Fill(mode.cpol, 1) + clock)),
                        Fill(bit, n + 1) + (Fill(bit, n + 1) + (Fill(bit, 1) + data)), mode.cpol, mode.cpol, true)
        == [bit] + SpiMode.Sampled(clock, data, mode.cpol, mode.cpol, true)
  {
    var idle := mode.cpol;
    if mode.cpha {
      SpiMode.SampledFill(!idle, [before] + Fill(bit, n + 1), Fill(idle, n + 1) + clock, Fill(bit, n + 1) + data,
                          idle, idle, false);
      SpiMode.SampledFill(idle, Fill(bit, n + 1), clock, data, !idle, idle, false);
    } else {
      var c1, d1 := Fill(idle, 1) + clock, Fill(bit, 1) + data;
      SpiMode.SampledFill(idle, Fill(bit, n + 1), Fill(!idle, n + 1) + c1, Fill(bit, n + 1) + d1, idle, idle, true);
      SpiMode.SampledFill(!idle, Fill(bit, n + 1), c1, d1, idle, idle, true);
      SpiMode.SampledFill(idle, Fill(bit, 1), clock, data, !idle, idle, true);
    }
  }

  lemma {:induction false} Regroup3(a: seq<bool>, b: seq<bool>, c: seq<bool>, d: seq<bool>)
    ensures (a + (b + c)) + d == a + (b + (c + d))
    ensures (a + b) + d == a + (b + d)
  {
  }

  lemma {:induction false} SampledBitTrace(sck: int, mosi: int, bit: bool, before: bool, mode: Spi.Mode, us: nat,
                                           rate: nat, clock: seq<bool>, data: seq<bool>)
    requires sck != mosi && |clock| == |data|
    ensures var trace := BitTrace(sck, mosi, bit, mode, us);
      && |Samples(trace, sck, mode.cpol, rate)| == |Samples(trace, mosi, before, rate)|
      && SpiMode.Sampled(Samples(trace, sck, mode.cpol, rate) + clock, Samples(trace, mosi, before, rate) + data,
                         mode.cpol, mode.cpol, !mode.cpha)
         == [bit] + SpiMode.Sampled(clock, data, mode.cpol, mode.cpol, !mode.cpha)
  {
    var n := us * rate;
    BitClock(sck, mosi, bit, mode, us, rate);
    BitData(sck, mosi, bit, mode, us, before, rate);
    SampledBit(bit, before, mode, n, clock, data);
    if mode.cpha {
      Regroup3(Fill(!mode.cpol, n + 2), Fill(mode.cpol, n + 1), [], clock);
      Regroup3([before] + Fill(bit, n + 1), Fill(bit, n + 1), [], data);
    } else {
      Regroup3(Fill(mode.cpol, n + 1), Fill(!mode.cpol, n + 1), Fill(mode.cpol, 1), clock);
      Regroup3(Fill(bit, n + 1), Fill(bit, n + 1), Fill(bit, 1), data);
    }
  }

  lemma {:induction false} SampledBurstTrace(sck: int, mosi: int, bits: seq<bool>, before: bool, mode: Spi.Mode,
                                             us: nat, rate: nat, clock: seq<bool>, data: seq<bool>)
    requires sck != mosi && |clock| == |data|
    ensures var trace := BurstTrace(sck, mosi, bits, mode, us);
      && LevelAfter(trace, sck, mode.cpol) == mode.cpol
      && |Samples(trace, sck, mode.cpol, rate)| == |Samples(trace, mosi, before, rate)|
      && SpiMode.Sampled(Samples(trace, sck, mode.cpol, rate) + clock, Samples(trace, mosi, before, rate) + data,
                         mode.cpol, mode.cpol, !mode.cpha)
         == bits + SpiMode.Sampled(clock, data, mode.cpol, mode.cpol, !mode.cpha)
  {
    if bits == [] {
      assert [] + clock == clock && [] + data == data;
    } else {
      var first, rest := BitTrace(sck, mosi, bits[0], mode, us), BurstTrace(sck, mosi, bits[1..], mode, us);
      var c, d := Samples(rest, sck, mode.cpol, rate), Samples(rest, mosi, bits[0], rate);
      SampledBurstTrace(sck, mosi, bits[1..], bits[0], mode, us, rate, clock, data);
      SampledBitTrace(sck, mosi, bits[0], before, mode, us, rate, c + clock, d + data);
      BitClock(sck, mosi, bits[0], mode, us, rate);
      BitData(sck, mosi, bits[0], mode, us, before, rate);
      SamplesConcat(first, rest, sck, mode.cpol, rate);
      SamplesConcat(first, rest, mosi, before, rate);
      SpiMode.Associate(Samples(first, sck, mode.cpol, rate), c, clock);
      SpiMode.Associate(Samples(first, mosi, before, rate), d, data);
      SpiMode.Associate([bits[0]], bits[1..], SpiMode.Sampled(clock, data, mode.cpol, mode.cpol, !mode.cpha));
      assert [bits[0]] + bits[1..] == bits;
    }
  }

  /** Whatever the pins were before, sampling the firmware's lines in their own mode yields the
      payload, most significant bit first; the clock ends idle and chip select ends high. */
  lemma {:induction false} SpiToHost(sck: int, mosi: int, cs: int, mode: Spi.Mode, us: nat, payload: seq<int>,
                                     sck0: bool, mosi0: bool, cs0: bool, rate: nat)
    requires sck != mosi && mosi != cs && sck != cs
    ensures var trace := SpiTrace(sck, mosi, cs, mode, us, payload);
      var clock, data := Samples(trace, sck, sck0, rate), Samples(trace, mosi, mosi0, rate);
      && |clock| == |data| > 0
      && SpiMode.DecodedBits(clock, data, mode) == PayloadBits(payload)
      && LevelAfter(trace, sck, sck0) == mode.cpol
      && LevelAfter(trace, cs, cs0)
  {
    hide BurstTrace, PayloadBits, Samples, LevelAfter, SpiMode.Sampled;
    var bits := PayloadBits(payload);
    var burst := BurstTrace(sck, mosi, bits, mode, us);
    var trace := SpiTrace(sck, mosi, cs, mode, us, payload);
    SamplesAlign(trace, sck, mosi, sck0, mosi0, rate);
    SpiLine(sck, mosi, cs, sck, mode, bits, us, sck0, mode.cpol, rate);
    SpiLine(sck, mosi, cs, mosi, mode, bits, us, mosi0, mosi0, rate);
    SampledBurstTrace(sck, mosi, bits, mosi0, mode, us, rate, [], []);
    SampledTransfer(bits, mode, Samples(burst, sck, mode.cpol, rate), Samples(burst, mosi, mosi0, rate), mosi0,
                    LevelAfter(burst, mosi, mosi0), sck, mosi, us, rate);
    SelectEndsHigh(trace[..|trace| - 1], cs, cs0);
    assert trace == trace[..|trace| - 1] + [Put(cs, true)];
  }

  /** The samples around the burst add nothing. */
  lemma {:induction false} SampledTransfer(bits: seq<bool>, mode: Spi.Mode, clock: seq<bool>, data: seq<bool>,
                                           before: bool, after: bool, sck: int, mosi: int, us: nat, rate: nat)
    requires sck != mosi && |clock| == |data|
    requires var burst := BurstTrace(sck, mosi, bits, mode, us);
      clock == Samples(burst, sck, mode.cpol, rate) && data == Samples(burst, mosi, before, rate)
    ensures SpiMode.Sampled([mode.cpol, mode.cpol] + (clock + [mode.cpol]), [before, before] + (data + [after]),
                            mode.cpol, mode.cpol, !mode.cpha)
         == bits
  {
    hide BurstTrace, Samples, SpiMode.Sampled;
    SampledBurstTrace(sck, mosi, bits, before, mode, us, rate, [mode.cpol], [after]);
    SpiMode.SampledFill(mode.cpol, [before, before], clock + [mode.cpol], data + [after], mode.cpol, mode.cpol,
                        !mode.cpha);
    assert Fill(mode.cpol, 2) == [mode.cpol, mode.cpol];
    SpiMode.SampledTail([after], mode.cpol, mode.cpol, !mode.cpha);
    assert Fill(mode.cpol, 1) == [mode.cpol];
  }

  lemma {:induction false} SelectEndsHigh(front: seq<Action>, cs: int, cs0: bool)
    ensures LevelAfter(front + [Put(cs, true)], cs, cs0)
  {
    SamplesConcat(front, [Put(cs, true)], cs, cs0, 0);
  }

  /** A line other than chip select over the whole transfer, given its level at the first write. */
  lemma {:induction false} SpiLine(sck: int, mosi: int, cs: int, pin: int, mode: Spi.Mode, bits: seq<bool>, us: nat,
                                   level0: bool, level: bool, rate: nat)
    requires pin != cs && sck != cs && level == (if pin == sck then mode.cpol else level0)
    ensures var burst := BurstTrace(sck, mosi, bits, mode, us);
      var trace := [Put(sck, mode.cpol), Put(cs, true), Put(cs, false)] + burst + [Put(cs, true)];
      && Samples(trace, pin, level0, rate)
         == [level] + ([level, level] + (Samples(burst, pin, level, rate) + [LevelAfter(burst, pin, level)]))
      && LevelAfter(trace, pin, level0) == LevelAfter(burst, pin, level)
  {
    var head, burst, last := OpenTrace(sck, cs, mode), BurstTrace(sck, mosi, bits, mode, us), [Put(cs, true)];
    var after := LevelAfter(burst, pin, level);
    SamplesOfOpen(sck, cs, mode, pin, level0, rate);
    SamplesConcat(head + burst, last, pin, level0, rate);
    SamplesConcat(head, burst, pin, level0, rate);
    assert last == last + [];
    SamplesCons(Put(cs, true), [], pin, after, rate);
    JoinLine(level, Samples(burst, pin, level, rate), after);
  }

  lemma {:induction false} JoinLine(level: bool, burst: seq<bool>, after: bool)
    ensures ([level, level, level] + burst) + ([after] + []) == [level] + ([level, level] + (burst + [after]))
  {
  }

  // ---------------------------------------------------------------------------------------
  // The clock runs only while chip select is low
  // ---------------------------------------------------------------------------------------

  /** Every write that changes the clock finds chip select low. */
  ghost predicate ClockConfined(trace: seq<Action>, sck: int, cs: int, clock: bool, select: bool) {
    trace != [] ==>
      var a := trace[0];
      && (Now(a, sck, clock) != clock ==> !select)
      && ClockConfined(trace[1..], sck, cs, Now(a, sck, clock), Now(a, cs, select))
  }

  lemma {:induction false} ConfinedConcat(a: seq<Action>, b: seq<Action>, sck: int, cs: int, clock: bool, select: bool)
    requires ClockConfined(a, sck, cs, clock, select)
    requires ClockConfined(b, sck, cs, LevelAfter(a, sck, clock), LevelAfter(a, cs, select))
    ensures ClockConfined(a + b, sck, cs, clock, select)
  {
    if a == [] {
      assert a + b == b;
    } else {
      assert (a + b)[0] == a[0] && (a + b)[1..] == a[1..] + b;
      ConfinedConcat(a[1..], b, sck, cs, Now(a[0], sck, clock), Now(a[0], cs, select));
    }
  }

  ghost predicate Avoids(trace: seq<Action>, pin: int) {
    forall i :: 0 <= i < |trace| && trace[i].Put? ==> trace[i].pin != pin
  }

  lemma {:induction false} NeverSelects(trace: seq<Action>, sck: int, cs: int, clock: bool)
    requires Avoids(trace, cs)
    ensures ClockConfined(trace, sck, cs, clock, false) && !LevelAfter(trace, cs, false)
  {
    if trace != [] {
      NeverSelects(trace[1..], sck, cs, Now(trace[0], sck, clock));
    }
  }

  lemma {:induction false} BurstAvoidsSelect(sck: int, mosi: int, cs: int, bits: seq<bool>, mode: Spi.Mode, us: nat)
    requires sck != cs && mosi != cs
    ensures Avoids(BurstTrace(sck, mosi, bits, mode, us), cs)
  {
    if bits != [] {
      BurstAvoidsSelect(sck, mosi, cs, bits[1..], mode, us);
      assert Avoids(BitTrace(sck, mosi, bits[0], mode, us), cs);
    }
  }

  lemma {:induction false} OpenConfined(sck: int, cs: int, mode: Spi.Mode, cs0: bool)
    requires sck != cs
    ensures ClockConfined(OpenTrace(sck, cs, mode), sck, cs, mode.cpol, cs0)
  {
    var a, b, c := Put(sck, mode.cpol), Put(cs, true), Put(cs, false);
    assert OpenTrace(sck, cs, mode)[1..] == [b, c] && [b, c][1..] == [c] && [c][1..] == [];
    assert ClockConfined([c], sck, cs, mode.cpol, true);
    assert ClockConfined([b, c], sck, cs, mode.cpol, cs0);
  }

  /** From the moment the clock pin rests at its idle level, it moves only under chip select. */
  lemma {:induction false} SpiClockConfined(sck: int, mosi: int, cs: int, mode: Spi.Mode, us: nat, payload: seq<int>,
                                            cs0: bool)
    requires sck != mosi && mosi != cs && sck != cs
    ensures ClockConfined(SpiTrace(sck, mosi, cs, mode, us, payload), sck, cs, mode.cpol, cs0)
  {
    var head, burst := OpenTrace(sck, cs, mode), BurstTrace(sck, mosi, PayloadBits(payload), mode, us);
    OpenConfined(sck, cs, mode, cs0);
    SamplesOfOpen(sck, cs, mode, sck, mode.cpol, 0);
    SamplesOfOpen(sck, cs, mode, cs, cs0, 0);
    BurstAvoidsSelect(sck, mosi, cs, PayloadBits(payload), mode, us);
    NeverSelects(burst, sck, cs, mode.cpol);
    ConfinedConcat(head, burst, sck, cs, mode.cpol, cs0);
    LastConfined(sck, cs, LevelAfter(head + burst, sck, mode.cpol), LevelAfter(head + burst, cs, cs0));
    ConfinedConcat(head + burst, [Put(cs, true)], sck, cs, mode.cpol, cs0);
  }

  /** The clock moves only under chip select exactly when it rests at its idle level before the
      first write, or chip select is low by then: in modes 2 and 3, not on freshly initialised pins
      unless chip select, too, is still low. */
  lemma {:induction false} SpiClockConfinedExactly(sck: int, mosi: int, cs: int, mode: Spi.Mode, us: nat,
                                                   payload: seq<int>, sck0: bool, cs0: bool)
    requires sck != mosi && mosi != cs && sck != cs
    ensures ClockConfined(SpiTrace(sck, mosi, cs, mode, us, payload), sck, cs, sck0, cs0)
       <==> sck0 == mode.cpol || !cs0
  {
    hide BurstTrace, PayloadBits;
    SpiClockConfined(sck, mosi, cs, mode, us, payload, cs0);
    var trace := SpiTrace(sck, mosi, cs, mode, us, payload);
    assert trace[0] == Put(sck, mode.cpol);
  }

  lemma {:induction false} LastConfined(sck: int, cs: int, clock: bool, select: bool)
    requires sck != cs
    ensures ClockConfined([Put(cs, true)], sck, cs, clock, select)
  {
    assert [Put(cs, true)][1..] == [];
  }

  // ---------------------------------------------------------------------------------------
  // UART
  // ---------------------------------------------------------------------------------------

  function Complement(s: seq<bool>): seq<bool> {
    seq(|s|, i requires 0 <= i < |s| => !s[i])
  }

  /** The pin as it is held between the writes, `rate` samples for every microsecond waited; a
      write itself takes no time. */
  function Held(trace: seq<Action>, pin: int, level: bool, rate: nat): seq<bool> {
    if trace == [] then []
    else
      match trace[0]
      case Put(_, _) => Held(trace[1..], pin, Now(trace[0], pin, level), rate)
      case Wait(us) => Fill(level, us * rate) + Held(trace[1..], pin, level, rate)
  }

  lemma {:induction false} HeldBit(pin: int, l: bool, us: nat, rest: seq<Action>, level0: bool, rate: nat)
    ensures Held([Put(pin, l), Wait(us)] + rest, pin, level0, rate) == Fill(l, us * rate) + Held(rest, pin, l, rate)
    ensures LevelAfter([Put(pin, l), Wait(us)] + rest, pin, level0) == LevelAfter(rest, pin, l)
  {
    var trace := [Put(pin, l), Wait(us)] + rest;
    assert trace[1..] == [Wait(us)] + rest && trace[1..][1..] == rest;
  }

  /** The line carries the generator's frame levels, each for exactly the firmware's bit period;
      inverted, it carries their complement. It stays at the last of them. */
  lemma {:induction false} UartLine(pin: int, levels: seq<bool>, inverted: bool, period: nat, level0: bool, rate: nat)
    ensures Held(LevelsTrace(pin, levels, inverted, period), pin, level0, rate)
         == if inverted then Complement(Stretch(levels, period * rate)) else Stretch(levels, period * rate)
    ensures LevelAfter(LevelsTrace(pin, levels, inverted, period), pin, level0)
         == if levels == [] then level0 else levels[|levels| - 1] != inverted
  {
    if levels != [] {
      var l, n := if inverted then !levels[0] else levels[0], period * rate;
      UartLine(pin, levels[1..], inverted, period, l, rate);
      HeldBit(pin, l, period, LevelsTrace(pin, levels[1..], inverted, period), level0, rate);
      StretchCons(levels[0], levels[1..], n);
      assert [levels[0]] + levels[1..] == levels;
      HoldJoins(levels[0], n, Stretch(levels[1..], n));
    }
  }

  lemma {:induction false} HoldJoins(level: bool, n: nat, rest: seq<bool>)
    ensures Fill(!level, n) + Complement(rest) == Complement(Fill(level, n) + rest)
  {
  }

  /** `hw_uart_tx` by its arguments: the line idles, high unless inverted, and then carries the
      frames of the payload back to back, each bit for `1000000 / baud` whole microseconds. */
  lemma {:induction false} UartTxDraws(pin: int, baud: nat, format: Uart.Format, inverted: bool, payload: seq<int>,
                                       level0: bool, rate: nat)
    ensures var trace := UartTrace(pin, baud, format, inverted, payload);
      var frames := Stretch(PayloadLevels(payload, format), (if baud > 0 then 1000000 / baud else 100) * rate);
      && trace != [] && LevelAfter(trace[..1], pin, level0) == !inverted
      && Held(trace, pin, level0, rate) == if inverted then Complement(frames) else frames
  {
    hide Held, LevelAfter, Stretch, PayloadLevels, LevelsTrace;
    var rest := LevelsTrace(pin, PayloadLevels(payload, format), inverted, UartPeriod(baud));
    var trace := [Put(pin, !inverted)] + rest;
    HeldCons(Put(pin, !inverted), rest, pin, level0, rate);
    assert [] + Held(rest, pin, !inverted, rate) == Held(rest, pin, !inverted, rate);
    UartLine(pin, PayloadLevels(payload, format), inverted, UartPeriod(baud), !inverted, rate);
    assert trace[..1] == [Put(pin, !inverted)] + [];
    HeldCons(Put(pin, !inverted), [], pin, level0, rate);
    NoLevel(pin, !inverted);
  }

  lemma NoLevel(pin: int, level: bool)
    ensures LevelAfter([], pin, level) == level
  {
  }

  // ---------------------------------------------------------------------------------------
  // The firmware's SPI lines are the generator's
  // ---------------------------------------------------------------------------------------

  lemma {:induction false} HeldConcat(a: seq<Action>, b: seq<Action>, pin: int, level: bool, rate: nat)
    ensures Held(a + b, pin, level, rate) == Held(a, pin, level, rate) + Held(b, pin, LevelAfter(a, pin, level), rate)
    ensures LevelAfter(a + b, pin, level) == LevelAfter(b, pin, LevelAfter(a, pin, level))
  {
    if a == [] {
      assert a + b == b;
    } else {
      assert (a + b)[0] == a[0] && (a + b)[1..] == a[1..] + b;
      HeldConcat(a[1..], b, pin, Now(a[0], pin, level), rate);
      var head := if a[0].Put? then [] else Fill(level, a[0].us * rate);
      SpiMode.Associate(head, Held(a[1..], pin, Now(a[0], pin, level), rate),
                        Held(b, pin, LevelAfter(a[1..], pin, Now(a[0], pin, level)), rate));
    }
  }

  /** What one action adds to the held line. */
  function Adds(a: Action, pin: int, level: bool, rate: nat): seq<bool> {
    if a.Put? then [] else Fill(level, a.us * rate)
  }

  lemma {:induction false} HeldCons(a: Action, rest: seq<Action>, pin: int, level: bool, rate: nat)
    ensures Held([a] + rest, pin, level, rate) == Adds(a, pin, level, rate) + Held(rest, pin, Now(a, pin, level), rate)
    ensures LevelAfter([a] + rest, pin, level) == LevelAfter(rest, pin, Now(a, pin, level))
  {
    assert ([a] + rest)[0] == a && ([a] + rest)[1..] == rest;
  }

  lemma {:induction false} HeldOfFive(a: Action, b: Action, c: Action, d: Action, e: Action, pin: int, level: bool,
                                      rate: nat)
    ensures var l1 := Now(a, pin, level);
      var l2 := Now(b, pin, l1);
      var l3 := Now(c, pin, l2);
      var l4 := Now(d, pin, l3);
      && Held([a, b, c, d, e], pin, level, rate)
         == Adds(a, pin, level, rate) + (Adds(b, pin, l1, rate) + (Adds(c, pin, l2, rate)
            + (Adds(d, pin, l3, rate) + Adds(e, pin, l4, rate))))
      && LevelAfter([a, b, c, d, e], pin, level) == Now(e, pin, l4)
  {
    hide Adds;
    var l1 := Now(a, pin, level);
    var l2 := Now(b, pin, l1);
    var l3 := Now(c, pin, l2);
    var l4 := Now(d, pin, l3);
    assert [a, b, c, d, e] == [a] + ([b] + ([c] + ([d] + ([e] + []))));
    HeldCons(a, [b] + ([c] + ([d] + ([e] + []))), pin, level, rate);
    HeldCons(b, [c] + ([d] + ([e] + [])), pin, l1, rate);
    HeldCons(c, [d] + ([e] + []), pin, l2, rate);
    HeldCons(d, [e] + [], pin, l3, rate);
    HeldCons(e, [], pin, l4, rate);
    assert Adds(e, pin, l4, rate) + [] == Adds(e, pin, l4, rate);
  }

  /** One bit lasts two half periods on every line: the clock as the generator draws it, the data
      constant, chip select untouched. */
  lemma {:induction false} HeldBitTrace(sck: int, mosi: int, bit: bool, mode: Spi.Mode, us: nat, pin: int, level: bool,
                                        rate: nat)
    requires sck != mosi && (pin == sck ==> level == mode.cpol)
    ensures var trace, n := BitTrace(sck, mosi, bit, mode, us), us * rate;
      var first := if pin == sck then Spi.ClockPair(mode)[0] else if pin == mosi then bit else level;
      var second := if pin == sck then Spi.ClockPair(mode)[1] else if pin == mosi then bit else level;
      && Held(trace, pin, level, rate) == Fill(first, n) + Fill(second, n)
      && LevelAfter(trace, pin, level) == if pin == sck then mode.cpol else second
  {
    hide Held, LevelAfter;
    if mode.cpha {
      HeldOfFive(Put(sck, !mode.cpol), Put(mosi, bit), Wait(us), Put(sck, mode.cpol), Wait(us), pin, level, rate);
    } else {
      HeldOfFive(Put(mosi, bit), Wait(us), Put(sck, !mode.cpol), Wait(us), Put(sck, mode.cpol), pin, level, rate);
    }
  }

  /** The levels of a line over the burst, a half period each. */
  function BurstCells(sck: int, mosi: int, pin: int, bits: seq<bool>, mode: Spi.Mode, level: bool): seq<bool> {
    if pin == sck then Spi.ClockCells(bits, mode)
    else if pin == mosi then Spi.DataCells(bits)
    else Fill(level, 2 * |bits|)
  }

  lemma {:induction false} CellsCons(sck: int, mosi: int, pin: int, bits: seq<bool>, mode: Spi.Mode, level: bool)
    requires bits != []
    ensures var first := if pin == sck then Spi.ClockPair(mode)[0] else if pin == mosi then bits[0] else level;
      var second := if pin == sck then Spi.ClockPair(mode)[1] else if pin == mosi then bits[0] else level;
      BurstCells(sck, mosi, pin, bits, mode, level)
      == [first] + ([second] + BurstCells(sck, mosi, pin, bits[1..], mode, level))
  {
  }

  lemma {:induction false} HeldBurst(sck: int, mosi: int, bits: seq<bool>, mode: Spi.Mode, us: nat, pin: int,
                                     level: bool, rate: nat)
    requires sck != mosi && (pin == sck ==> level == mode.cpol)
    ensures Held(BurstTrace(sck, mosi, bits, mode, us), pin, level, rate)
         == Stretch(BurstCells(sck, mosi, pin, bits, mode, level), us * rate)
  {
    hide Held, LevelAfter, BitTrace, BurstCells, Stretch;
    if bits == [] {
      NoBurst(sck, mosi, bits, mode, us, pin, level, rate);
    } else {
      var bit, n := BitTrace(sck, mosi, bits[0], mode, us), us * rate;
      var after := LevelAfter(bit, pin, level);
      HeldBitTrace(sck, mosi, bits[0], mode, us, pin, level, rate);
      HeldConcat(bit, BurstTrace(sck, mosi, bits[1..], mode, us), pin, level, rate);
      HeldBurst(sck, mosi, bits[1..], mode, us, pin, after, rate);
      LevelIrrelevant(sck, mosi, pin, bits[1..], mode, level, after);
      CellsCons(sck, mosi, pin, bits, mode, level);
      var rest := BurstCells(sck, mosi, pin, bits[1..], mode, level);
      var first := if pin == sck then Spi.ClockPair(mode)[0] else if pin == mosi then bits[0] else level;
      var second := if pin == sck then Spi.ClockPair(mode)[1] else if pin == mosi then bits[0] else level;
      StretchCons(first, [second] + rest, n);
      StretchCons(second, rest, n);
      SpiMode.Associate(Fill(first, n), Fill(second, n), Stretch(rest, n));
    }
  }

  lemma NoBurst(sck: int, mosi: int, bits: seq<bool>, mode: Spi.Mode, us: nat, pin: int, level: bool, rate: nat)
    requires bits == []
    ensures Held(BurstTrace(sck, mosi, bits, mode, us), pin, level, rate) == []
    ensures Stretch(BurstCells(sck, mosi, pin, bits, mode, level), us * rate) == []
  {
  }

  /** Only a line that is not driven keeps its level. */
  lemma LevelIrrelevant(sck: int, mosi: int, pin: int, bits: seq<bool>, mode: Spi.Mode, x: bool, y: bool)
    requires pin == sck || pin == mosi || x == y
    ensures BurstCells(sck, mosi, pin, bits, mode, x) == BurstCells(sck, mosi, pin, bits, mode, y)
  {
  }

  lemma {:induction false} HeldTransfer(sck: int, mosi: int, cs: int, mode: Spi.Mode, us: nat, payload: seq<int>,
                                        pin: int, level0: bool, rate: nat)
    requires sck != mosi && mosi != cs && sck != cs
    ensures var level := if pin == sck then mode.cpol else if pin == cs then false else level0;
      && LevelAfter(OpenTrace(sck, cs, mode), pin, level0) == level
      && Held(SpiTrace(sck, mosi, cs, mode, us, payload), pin, level0, rate)
         == Stretch(BurstCells(sck, mosi, pin, PayloadBits(payload), mode, level), us * rate)
  {
    hide Held, LevelAfter, BurstTrace, BurstCells, Stretch, PayloadBits;
    var burst, last := BurstTrace(sck, mosi, PayloadBits(payload), mode, us), [Put(cs, true)];
    var level := if pin == sck then mode.cpol else if pin == cs then false else level0;
    HeldOpen(sck, cs, mode, pin, level0, rate);
    HeldConcat(OpenTrace(sck, cs, mode) + burst, last, pin, level0, rate);
    HeldConcat(OpenTrace(sck, cs, mode), burst, pin, level0, rate);
    HeldBurst(sck, mosi, PayloadBits(payload), mode, us, pin, level, rate);
    HeldNothing(cs, pin, LevelAfter(OpenTrace(sck, cs, mode) + burst, pin, level0), rate);
    assert Held(burst, pin, level, rate) + [] == Held(burst, pin, level, rate);
  }

  lemma {:induction false} HeldOpen(sck: int, cs: int, mode: Spi.Mode, pin: int, level0: bool, rate: nat)
    requires sck != cs
    ensures Held(OpenTrace(sck, cs, mode), pin, level0, rate) == []
    ensures LevelAfter(OpenTrace(sck, cs, mode), pin, level0)
         == if pin == sck then mode.cpol else if pin == cs then false else level0
  {
    var a, b, c := Put(sck, mode.cpol), Put(cs, true), Put(cs, false);
    assert OpenTrace(sck, cs, mode) == [a] + ([b] + ([c] + []));
    HeldCons(a, [b] + ([c] + []), pin, level0, rate);
    HeldCons(b, [c] + [], pin, Now(a, pin, level0), rate);
    HeldCons(c, [], pin, Now(b, pin, Now(a, pin, level0)), rate);
  }

  lemma HeldNothing(cs: int, pin: int, level: bool, rate: nat)
    ensures Held([Put(cs, true)], pin, level, rate) == []
  {
    assert [Put(cs, true)][1..] == [];
  }

  /** The four modes by their number; any other number means mode 0. */
  function Numbered(mode: int): Spi.Mode {
    if 0 <= mode <= 3 then Spi.Mode(mode / 2 == 1, mode % 2 == 1) else Spi.Mode(false, false)
  }

  /** `hw_spi_tx` by its arguments: at `500000 / speed` microseconds, at least one, a half period,
      the clock and data lines are exactly what the generator draws for the payload in the mode of
      that number, and chip select stays low over the burst. */
  lemma {:induction false} SpiTxDraws(sck: int, mosi: int, cs: int, mode: int, speed: nat, payload: seq<int>,
                                      sck0: bool, mosi0: bool, cs0: bool, rate: nat)
    requires sck != mosi && mosi != cs && sck != cs
    ensures var trace := SpiTrace(sck, mosi, cs, ModeOf(mode), HalfPeriod(speed), payload);
      var half := (if 1 <= speed <= 500000 then 500000 / speed else 1) * rate;
      var bits := PayloadBits(payload);
      && Held(trace, sck, sck0, rate) == Stretch(Spi.ClockCells(bits, Numbered(mode)), half)
      && Held(trace, mosi, mosi0, rate) == Stretch(Spi.DataCells(bits), half)
      && Held(trace, cs, cs0, rate) == Stretch(Fill(false, 2 * |bits|), half)
  {
    hide Held, SpiTrace, Stretch, Spi.ClockCells, Spi.DataCells, PayloadBits;
    HalfPeriodIs(speed);
    HeldTransfer(sck, mosi, cs, ModeOf(mode), HalfPeriod(speed), payload, sck, sck0, rate);
    HeldTransfer(sck, mosi, cs, ModeOf(mode), HalfPeriod(speed), payload, mosi, mosi0, rate);
    HeldTransfer(sck, mosi, cs, ModeOf(mode), HalfPeriod(speed), payload, cs, cs0, rate);
  }

  lemma HalfPeriodIs(speed: nat)
    ensures HalfPeriod(speed) == if 1 <= speed <= 500000 then 500000 / speed else 1
  {
  }

  /** And a host that samples in the mode of that number reads the payload; the clock rests at its
      idle level, high in modes 2 and 3, before and after the burst. */
  lemma {:induction false} SpiTxHeard(sck: int, mosi: int, cs: int, mode: int, speed: nat, payload: seq<int>,
                                      sck0: bool, mosi0: bool, cs0: bool, rate: nat)
    requires sck != mosi && mosi != cs && sck != cs
    ensures var trace := SpiTrace(sck, mosi, cs, ModeOf(mode), HalfPeriod(speed), payload);
      var clock, data := Samples(trace, sck, sck0, rate), Samples(trace, mosi, mosi0, rate);
      && |clock| == |data|
      && SpiMode.DecodedBits(clock, data, Numbered(mode)) == PayloadBits(payload)
      && |trace| >= 3
      && LevelAfter(trace[..3], sck, sck0) == (mode == 2 || mode == 3) && !LevelAfter(trace[..3], cs, cs0)
      && LevelAfter(trace, sck, sck0) == (mode == 2 || mode == 3) && LevelAfter(trace, cs, cs0)
  {
    hide Samples, LevelAfter, PayloadBits, BurstTrace, SpiMode.DecodedBits, HalfPeriod;
    SpiToHost(sck, mosi, cs, ModeOf(mode), HalfPeriod(speed), payload, sck0, mosi0, cs0, rate);
    HeldOpen(sck, cs, ModeOf(mode), sck, sck0, rate);
    HeldOpen(sck, cs, ModeOf(mode), cs, cs0, rate);
    var trace := SpiTrace(sck, mosi, cs, ModeOf(mode), HalfPeriod(speed), payload);
    assert trace[..3] == OpenTrace(sck, cs, ModeOf(mode));
  }

  // ---------------------------------------------------------------------------------------
  // Every write of a transfer
  // ---------------------------------------------------------------------------------------

  /** The levels written to one pin, in order. */
  function Writes(trace: seq<Action>, pin: int): seq<bool> {
    if trace == [] then []
    else (if trace[0].Put? && trace[0].pin == pin then [trace[0].level] else []) + Writes(trace[1..], pin)
  }

  lemma {:induction false} WritesConcat(a: seq<Action>, b: seq<Action>, pin: int)
    ensures Writes(a + b, pin) == Writes(a, pin) + Writes(b, pin)
  {
    if a == [] {
      assert a + b == b;
    } else {
      assert (a + b)[0] == a[0] && (a + b)[1..] == a[1..] + b;
      WritesConcat(a[1..], b, pin);
      var head := if a[0].Put? && a[0].pin == pin then [a[0].level] else [];
      SpiMode.Associate(head, Writes(a[1..], pin), Writes(b, pin));
    }
  }

  lemma {:induction false} WritesCons(a: Action, rest: seq<Action>, pin: int)
    ensures Writes([a] + rest, pin) == (if a.Put? && a.pin == pin then [a.level] else []) + Writes(rest, pin)
  {
    assert ([a] + rest)[0] == a && ([a] + rest)[1..] == rest;
  }

  lemma {:induction false} WritesOfThree(a: Action, b: Action, c: Action, pin: int)
    ensures Writes([a, b, c], pin)
         == (if a.Put? && a.pin == pin then [a.level] else [])
            + ((if b.Put? && b.pin == pin then [b.level] else []) + (if c.Put? && c.pin == pin then [c.level] else []))
  {
    assert [a, b, c] == [a] + ([b] + ([c] + []));
    WritesCons(a, [b] + ([c] + []), pin);
    WritesCons(b, [c] + [], pin);
    WritesCons(c, [], pin);
  }

  lemma {:induction false} WritesOfTwo(a: Action, b: Action, pin: int)
    ensures Writes([a, b], pin)
         == (if a.Put? && a.pin == pin then [a.level] else []) + (if b.Put? && b.pin == pin then [b.level] else [])
  {
    assert [a, b] == [a] + ([b] + []);
    WritesCons(a, [b] + [], pin);
    WritesCons(b, [], pin);
  }

  lemma {:induction false} WritesOfBit(sck: int, mosi: int, bit: bool, mode: Spi.Mode, us: nat, pin: int)
    requires sck != mosi
    ensures Writes(BitTrace(sck, mosi, bit, mode, us), pin)
         == if pin == sck then [!mode.cpol, mode.cpol] else if pin == mosi then [bit] else []
  {
    hide Writes;
    if mode.cpha {
      var a, b, c, d, e := Put(sck, !mode.cpol), Put(mosi, bit), Wait(us), Put(sck, mode.cpol), Wait(us);
      assert BitTrace(sck, mosi, bit, mode, us) == [a, b, c] + [d, e];
      WritesConcat([a, b, c], [d, e], pin);
      WritesOfThree(a, b, c, pin);
      WritesOfTwo(d, e, pin);
    } else {
      var a, b, c, d, e := Put(mosi, bit), Wait(us), Put(sck, !mode.cpol), Wait(us), Put(sck, mode.cpol);
      assert BitTrace(sck, mosi, bit, mode, us) == [a, b, c] + [d, e];
      WritesConcat([a, b, c], [d, e], pin);
      WritesOfThree(a, b, c, pin);
      WritesOfTwo(d, e, pin);
    }
  }

  /** One clock pulse away from the idle level for every bit. */
  function ClockWrites(bits: nat, idle: bool): seq<bool> {
    if bits == 0 then [] else [!idle, idle] + ClockWrites(bits - 1, idle)
  }

  lemma {:induction false} WritesOfBurst(sck: int, mosi: int, bits: seq<bool>, mode: Spi.Mode, us: nat, pin: int)
    requires sck != mosi
    ensures Writes(BurstTrace(sck, mosi, bits, mode, us), pin)
         == if pin == sck then ClockWrites(|bits|, mode.cpol) else if pin == mosi then bits else []
  {
    hide Writes, BitTrace;
    if bits == [] {
      NoWrites(pin);
    } else {
      WritesOfBit(sck, mosi, bits[0], mode, us, pin);
      WritesConcat(BitTrace(sck, mosi, bits[0], mode, us), BurstTrace(sck, mosi, bits[1..], mode, us), pin);
      WritesOfBurst(sck, mosi, bits[1..], mode, us, pin);
      assert [bits[0]] + bits[1..] == bits;
    }
  }

  lemma NoWrites(pin: int)
    ensures Writes([], pin) == []
  {
  }

  /** What `hw_spi_tx` writes: chip select high, low, and high again; the idle level and then one
      pulse a bit on the clock; the payload, most significant bit first, on the data line. */
  lemma {:induction false} SpiTxWrites(sck: int, mosi: int, cs: int, mode: int, speed: nat, payload: seq<int>)
    requires sck != mosi && mosi != cs && sck != cs
    ensures var trace := SpiTrace(sck, mosi, cs, ModeOf(mode), HalfPeriod(speed), payload);
      var idle := mode == 2 || mode == 3;
      && Writes(trace, cs) == [true, false, true]
      && Writes(trace, sck) == [idle] + ClockWrites(|PayloadBits(payload)|, idle)
      && Writes(trace, mosi) == PayloadBits(payload)
  {
    hide Writes, SpiTrace, PayloadBits, ClockWrites, HalfPeriod;
    WritesOfTransfer(sck, mosi, cs, ModeOf(mode), HalfPeriod(speed), payload, cs);
    WritesOfTransfer(sck, mosi, cs, ModeOf(mode), HalfPeriod(speed), payload, sck);
    WritesOfTransfer(sck, mosi, cs, ModeOf(mode), HalfPeriod(speed), payload, mosi);
  }

  lemma {:induction false} WritesOfTransfer(sck: int, mosi: int, cs: int, mode: Spi.Mode, us: nat, payload: seq<int>,
                                            pin: int)
    requires sck != mosi && mosi != cs && sck != cs
    ensures Writes(SpiTrace(sck, mosi, cs, mode, us, payload), pin)
         == if pin == cs then [true, false, true]
            else if pin == sck then [mode.cpol] + ClockWrites(|PayloadBits(payload)|, mode.cpol)
            else if pin == mosi then PayloadBits(payload) else []
  {
    hide Writes, BurstTrace, PayloadBits, ClockWrites;
    var open, last := OpenTrace(sck, cs, mode), [Put(cs, true)];
    var burst := BurstTrace(sck, mosi, PayloadBits(payload), mode, us);
    WritesConcat(open + burst, last, pin);
    WritesConcat(open, burst, pin);
    WritesOfThree(Put(sck, mode.cpol), Put(cs, true), Put(cs, false), pin);
    WritesOfBurst(sck, mosi, PayloadBits(payload), mode, us, pin);
    assert last == last + [];
    WritesCons(Put(cs, true), [], pin);
    NoWrites(pin);
  }
}
