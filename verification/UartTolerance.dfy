/** Frames sent back to back with one cell width and decoded with another bit period
    (src/slidko/decode/native_uart.py): exactly when every payload survives, and exactly when the
    host hears the firmware's own transmitter (firmware/src/hw/peripherals.c). */
module UartTolerance {
  import opened Numbers
  import opened Results
  import opened Signals
  import opened Uart
  import opened UartRoundTrip
  import Peripherals
  import FirmwareWaves

  // ---------------------------------------------------------------------------------------
  // Frames without gaps
  // ---------------------------------------------------------------------------------------

  const CELLS := 10

  function Frames(payload: seq<int>): seq<bool> {
    Peripherals.PayloadLevels(payload, EIGHT_N_ONE)
  }

  /** An idle line, the frames in cells of `cell` samples, and an idle line again. */
  function Burst(payload: seq<int>, cell: nat, lead: nat, trail: nat): seq<bool> {
    Fill(true, lead) + Stretch(Frames(payload), cell) + Fill(true, trail)
  }

  /** The first sample of frame `k`. */
  function Begin(k: nat, cell: nat, lead: nat): nat {
    lead + k * (CELLS * cell)
  }

  lemma FrameAt(byte: int)
    ensures |FrameLevels(byte, EIGHT_N_ONE)| == CELLS
    ensures forall c :: 0 <= c < CELLS ==> FrameLevels(byte, EIGHT_N_ONE)[c] == CellLevel(byte, c)
  {
    assert Round(1.0) == 1;
    assert FrameLevels(byte, EIGHT_N_ONE) == [false] + BitsLsb(byte, 8) + [] + Fill(true, 1);
  }

  lemma {:induction false} FramesAt(payload: seq<int>, k: nat, c: nat)
    requires k < |payload| && c < CELLS
    ensures |Frames(payload)| == CELLS * |payload| > CELLS * k + c
    ensures Frames(payload)[CELLS * k + c] == CellLevel(payload[k], c)
  {
    hide FrameLevels, CellLevel;
    var n := |payload| - 1;
    FrameAt(payload[n]);
    assert Frames(payload) == Frames(payload[..n]) + FrameLevels(payload[n], EIGHT_N_ONE);
    if n == 0 {
      assert Frames(payload[..n]) == [];
    } else {
      FramesAt(payload[..n], if k < n then k else 0, c);
      assert |Frames(payload[..n])| == CELLS * n;
    }
  }

  lemma {:induction false} BurstLength(payload: seq<int>, cell: nat, lead: nat, trail: nat)
    ensures |Burst(payload, cell, lead, trail)| == Begin(|payload|, cell, lead) + trail
  {
    if payload != [] {
      FramesAt(payload, 0, 0);
    }
    StretchLength(Frames(payload), cell);
    assert CELLS * |payload| * cell == |payload| * (CELLS * cell);
  }

  /** The sample `o` samples behind the start of frame `k`, in cell `c`. */
  lemma {:induction false} BurstAt(payload: seq<int>, cell: nat, lead: nat, trail: nat, k: nat, c: nat, o: int)
    requires k < |payload| && c < CELLS && c * cell <= o < (c + 1) * cell
    ensures o >= 0 && Begin(k, cell, lead) + o < |Burst(payload, cell, lead, trail)|
    ensures Burst(payload, cell, lead, trail)[Begin(k, cell, lead) + o] == CellLevel(payload[k], c)
  {
    hide Frames, CellLevel;
    FramesAt(payload, k, c);
    assert (c + 1) * cell == c * cell + cell;
    StretchCell(Frames(payload), cell, CELLS * k + c, o - c * cell);
    CellIndex(k, c, cell);
  }

  lemma CellIndex(k: nat, c: nat, cell: nat)
    ensures (CELLS * k + c) * cell == k * (CELLS * cell) + c * cell
    ensures c * cell >= 0
  {
  }

  lemma {:induction false} BurstIdle(payload: seq<int>, cell: nat, lead: nat, trail: nat, i: nat)
    requires i < lead || Begin(|payload|, cell, lead) <= i < Begin(|payload|, cell, lead) + trail
    ensures i < |Burst(payload, cell, lead, trail)| && Burst(payload, cell, lead, trail)[i]
  {
    hide Frames, Stretch;
    BurstLength(payload, cell, lead, trail);
  }

  lemma NextBegin(k: nat, cell: nat, lead: nat)
    ensures Begin(k + 1, cell, lead) == Begin(k, cell, lead) + CELLS * cell
  {
  }

  // ---------------------------------------------------------------------------------------
  // The condition
  // ---------------------------------------------------------------------------------------

  /** Bit `k` is sampled inside its own cell. */
  predicate Hits(bitPeriod: real, cell: nat, k: nat) {
    k * cell <= Round(Midpoint(bitPeriod, k)) < (k + 1) * cell
  }

  /** Every data bit and the stop bit are hit, and the frame has not ended behind the next start. */
  predicate Tolerates(bitPeriod: real, cell: nat) {
    && (forall k :: 1 <= k <= 9 ==> Hits(bitPeriod, cell, k))
    && Round(bitPeriod * 10.0) <= CELLS * cell
  }

  function BurstEvent(byte: int, k: nat, bitPeriod: real, cell: nat, lead: nat): ByteEvent {
    var start := Begin(k, cell, lead);
    EventOf(start, Frame(byte % 256, start + Round(bitPeriod * 10.0) - 1, true))
  }

  /** One event per byte, at its start edge and without framing error. */
  function BurstEvents(payload: seq<int>, bitPeriod: real, cell: nat, lead: nat): seq<ByteEvent> {
    seq(|payload|, k requires 0 <= k < |payload| => BurstEvent(payload[k], k, bitPeriod, cell, lead))
  }

  ghost predicate Survives(payload: seq<int>, bitPeriod: real, cell: nat, lead: nat, trail: nat)
    requires bitPeriod >= 1.0
  {
    Scan(Burst(payload, cell, lead, trail), 1, bitPeriod) == BurstEvents(payload, bitPeriod, cell, lead)
  }

  // ---------------------------------------------------------------------------------------
  // Tolerated frames survive
  // ---------------------------------------------------------------------------------------

  lemma {:induction false} SampledCell(payload: seq<int>, bitPeriod: real, cell: nat, lead: nat, trail: nat, k: nat,
                                       c: nat)
    requires k < |payload| && 1 <= c <= 9 && Hits(bitPeriod, cell, c)
    ensures var at := Center(Begin(k, cell, lead), bitPeriod, c);
      0 <= at < |Burst(payload, cell, lead, trail)|
      && Burst(payload, cell, lead, trail)[at] == CellLevel(payload[k], c)
  {
    hide Burst, CellLevel, Begin, Midpoint;
    BurstAt(payload, cell, lead, trail, k, c, Round(Midpoint(bitPeriod, c)));
  }

  lemma {:induction false} DecodedInBurst(payload: seq<int>, bitPeriod: real, cell: nat, lead: nat, trail: nat, k: nat)
    requires k < |payload| && bitPeriod >= 1.0 && Tolerates(bitPeriod, cell)
    ensures var start := Begin(k, cell, lead);
      DecodedFrame(Burst(payload, cell, lead, trail), start, bitPeriod, 8)
      == Some(Frame(payload[k] % 256, start + Round(bitPeriod * 10.0) - 1, true))
  {
    hide Burst, Begin, Center, Hits, ValueLsb, BitsLsb;
    SampledCell(payload, bitPeriod, cell, lead, trail, k, 9);
    DataInBurst(payload, bitPeriod, cell, lead, trail, k);
    BitsLsbRoundTrip(payload[k], 8);
    assert Pow2(8) == 256;
  }

  lemma {:induction false} DataInBurst(payload: seq<int>, bitPeriod: real, cell: nat, lead: nat, trail: nat, k: nat)
    requires k < |payload| && bitPeriod >= 1.0 && Tolerates(bitPeriod, cell)
    requires Center(Begin(k, cell, lead), bitPeriod, 9) < |Burst(payload, cell, lead, trail)|
    ensures DataSamples(Burst(payload, cell, lead, trail), Begin(k, cell, lead), bitPeriod, 8) == BitsLsb(payload[k], 8)
  {
    hide Burst, Begin, Center, Hits, Bit;
    var samples := DataSamples(Burst(payload, cell, lead, trail), Begin(k, cell, lead), bitPeriod, 8);
    forall i | 0 <= i < 8 ensures samples[i] == Bit(payload[k], i) {
      SampledCell(payload, bitPeriod, cell, lead, trail, k, i + 1);
    }
  }

  lemma {:induction false} BeginFalls(payload: seq<int>, cell: nat, lead: nat, trail: nat, k: nat)
    requires k < |payload| && cell >= 1 && lead >= 1
    ensures IsFalling(Burst(payload, cell, lead, trail), Begin(k, cell, lead))
  {
    hide Burst;
    BurstAt(payload, cell, lead, trail, k, 0, 0);
    if k == 0 {
      BurstIdle(payload, cell, lead, trail, lead - 1);
    } else {
      NextBegin(k - 1, cell, lead);
      BurstAt(payload, cell, lead, trail, k - 1, 9, CELLS * cell - 1);
    }
  }

  /** Nothing falls inside a stop cell. */
  lemma {:induction false} StopQuiet(payload: seq<int>, cell: nat, lead: nat, trail: nat, k: nat)
    requires k < |payload|
    ensures NoFall(Burst(payload, cell, lead, trail), Begin(k, cell, lead) + 9 * cell,
                   Begin(k, cell, lead) + CELLS * cell)
  {
    hide Burst, Begin;
    forall i | Begin(k, cell, lead) + 9 * cell <= i < Begin(k, cell, lead) + CELLS * cell
      ensures !IsFalling(Burst(payload, cell, lead, trail), i)
    {
      BurstAt(payload, cell, lead, trail, k, 9, i - Begin(k, cell, lead));
    }
  }

  lemma {:induction false} EndsQuiet(payload: seq<int>, cell: nat, lead: nat, trail: nat)
    ensures NoFall(Burst(payload, cell, lead, trail), 1, lead)
    ensures NoFall(Burst(payload, cell, lead, trail), Begin(|payload|, cell, lead), |Burst(payload, cell, lead, trail)|)
  {
    hide Burst, Begin;
    BurstLength(payload, cell, lead, trail);
    forall i | 1 <= i < lead || Begin(|payload|, cell, lead) <= i < |Burst(payload, cell, lead, trail)|
      ensures !IsFalling(Burst(payload, cell, lead, trail), i)
    {
      BurstIdle(payload, cell, lead, trail, i);
    }
  }

  /** From a resume point before frame `k`, exactly the frames from `k` on are found. */
  lemma {:induction false} ScanBurst(payload: seq<int>, bitPeriod: real, cell: nat, lead: nat, trail: nat, k: nat,
                                     idx: nat)
    requires k <= |payload| && bitPeriod >= 1.0 && lead >= 1 && Tolerates(bitPeriod, cell)
    requires 1 <= idx <= Begin(k, cell, lead)
    requires NoFall(Burst(payload, cell, lead, trail), idx, Begin(k, cell, lead))
    ensures Scan(Burst(payload, cell, lead, trail), idx, bitPeriod) == BurstEvents(payload, bitPeriod, cell, lead)[k..]
    decreases |payload| - k
  {
    hide Burst, Begin, Scan, Tolerates, NoFall, BurstEvent;
    var signal, begin := Burst(payload, cell, lead, trail), Begin(k, cell, lead);
    BurstLength(payload, cell, lead, trail);
    if k == |payload| {
      EndsQuiet(payload, cell, lead, trail);
      SkipQuiet(signal, idx, begin, bitPeriod);
      SkipQuiet(signal, begin, |signal|, bitPeriod);
      NothingBehind(signal, bitPeriod);
    } else {
      BeginInside(|payload|, k, cell, lead);
      SkipQuiet(signal, idx, begin, bitPeriod);
      var next := BurstStep(payload, bitPeriod, cell, lead, trail, k);
      ScanBurst(payload, bitPeriod, cell, lead, trail, k + 1, next);
      var events := BurstEvents(payload, bitPeriod, cell, lead);
      assert events[k..] == [events[k]] + events[k + 1..];
    }
  }

  lemma BeginInside(n: nat, k: nat, cell: nat, lead: nat)
    requires k <= n
    ensures Begin(k, cell, lead) <= Begin(n, cell, lead)
  {
    MulMonotone(k, n, CELLS * cell);
  }

  lemma NothingBehind(signal: seq<bool>, bitPeriod: real)
    requires bitPeriod >= 1.0 && signal != []
    ensures Scan(signal, |signal|, bitPeriod) == []
  {
  }

  lemma {:induction false} BurstStep(payload: seq<int>, bitPeriod: real, cell: nat, lead: nat, trail: nat, k: nat)
    returns (next: nat)
    requires k < |payload| && bitPeriod >= 1.0 && lead >= 1 && Tolerates(bitPeriod, cell)
    ensures 1 <= next <= Begin(k + 1, cell, lead)
    ensures NoFall(Burst(payload, cell, lead, trail), next, Begin(k + 1, cell, lead))
    ensures Begin(k, cell, lead) >= 1
    ensures Scan(Burst(payload, cell, lead, trail), Begin(k, cell, lead), bitPeriod)
         == [BurstEvent(payload[k], k, bitPeriod, cell, lead)]
           + Scan(Burst(payload, cell, lead, trail), next, bitPeriod)
  {
    hide Burst, Scan, Tolerates, Round, DecodedFrame;
    FrameEndInStop(bitPeriod, cell);
    next := Begin(k, cell, lead) + Round(bitPeriod * 10.0);
    NextBegin(k, cell, lead);
    BeginFalls(payload, cell, lead, trail, k);
    DecodedInBurst(payload, bitPeriod, cell, lead, trail, k);
    FirstOfScan(Burst(payload, cell, lead, trail), Begin(k, cell, lead), bitPeriod);
    StopQuiet(payload, cell, lead, trail, k);
  }

  lemma {:induction false} FirstOfScan(signal: seq<bool>, start: nat, bitPeriod: real)
    requires bitPeriod >= 1.0 && IsFalling(signal, start) && DecodedFrame(signal, start, bitPeriod, 8).Some?
    ensures var frame := DecodedFrame(signal, start, bitPeriod, 8).value;
      frame.end >= start
      && Scan(signal, start, bitPeriod) == [EventOf(start, frame)] + Scan(signal, frame.end + 1, bitPeriod)
  {
    hide DecodedFrame;
    ScanStep(signal, start, bitPeriod, []);
  }

  lemma FrameEndInStop(bitPeriod: real, cell: nat)
    requires bitPeriod >= 1.0 && Tolerates(bitPeriod, cell)
    ensures cell >= 1 && 9 * cell <= Round(bitPeriod * 10.0) <= CELLS * cell
    ensures Round(bitPeriod * 10.0) >= 1
  {
    assert Hits(bitPeriod, cell, 9);
    assert bitPeriod * (9 as real + 0.5) == bitPeriod * 9.5;
    RoundMonotone(bitPeriod * 9.5, bitPeriod * 10.0);
  }

  lemma {:induction false} ToleratedSurvives(payload: seq<int>, bitPeriod: real, cell: nat, lead: nat, trail: nat)
    requires bitPeriod >= 1.0 && lead >= 1 && Tolerates(bitPeriod, cell)
    ensures Survives(payload, bitPeriod, cell, lead, trail)
  {
    hide Burst, Scan, Tolerates, BurstEvents, NoFall;
    EndsQuiet(payload, cell, lead, trail);
    assert Begin(0, cell, lead) == lead;
    ScanBurst(payload, bitPeriod, cell, lead, trail, 0, 1);
    assert BurstEvents(payload, bitPeriod, cell, lead)[0..] == BurstEvents(payload, bitPeriod, cell, lead);
  }

  // ---------------------------------------------------------------------------------------
  // What survives shows that the frames are tolerated
  // ---------------------------------------------------------------------------------------

  lemma {:induction false} BitOfPow2(i: nat, j: nat)
    ensures Bit(Pow2(i), j) <==> i == j
    ensures !Bit(0, j)
  {
    if j == 0 {
      BitZero(Pow2(i));
      BitZero(0);
    } else {
      BitHalf(Pow2(i), j - 1);
      BitHalf(0, j - 1);
      BitOfPow2(if i > 0 then i - 1 else 0, j - 1);
    }
  }

  /** The first frame of a surviving payload was read truly. */
  lemma {:induction false} FirstFrameRead(payload: seq<int>, bitPeriod: real, cell: nat, lead: nat, trail: nat)
    requires payload != [] && bitPeriod >= 1.0 && Survives(payload, bitPeriod, cell, lead, trail)
    ensures IsFalling(Burst(payload, cell, lead, trail), lead)
    ensures DecodedFrame(Burst(payload, cell, lead, trail), lead, bitPeriod, 8)
         == Some(Frame(payload[0] % 256, lead + Round(bitPeriod * 10.0) - 1, true))
  {
    hide Burst, Scan, Round, DecodedFrame;
    var signal, events := Burst(payload, cell, lead, trail), BurstEvents(payload, bitPeriod, cell, lead);
    ScanIsFaithful(signal, 1, bitPeriod);
    assert events[0] == BurstEvent(payload[0], 0, bitPeriod, cell, lead);
    assert events[0] in Scan(signal, 1, bitPeriod);
    assert Begin(0, cell, lead) == lead;
  }

  lemma {:induction false} FirstBitsRead(payload: seq<int>, bitPeriod: real, cell: nat, lead: nat, trail: nat, k: nat)
    requires payload != [] && bitPeriod >= 1.0 && Survives(payload, bitPeriod, cell, lead, trail)
    requires 1 <= k <= 9
    ensures var at := Center(lead, bitPeriod, k);
      lead <= at < |Burst(payload, cell, lead, trail)|
      && Burst(payload, cell, lead, trail)[at] == if k == 9 then true else Bit(payload[0], k - 1)
  {
    hide Burst, Survives, Center, Bit, Round, ValueLsb;
    var signal := Burst(payload, cell, lead, trail);
    FirstFrameRead(payload, bitPeriod, cell, lead, trail);
    CenterMonotone(lead, bitPeriod, k, 9);
    if k < 9 {
      BitsLsbRoundTrip(payload[0], 8);
      assert Pow2(8) == 256;
      ValueLsbInjective(DataSamples(signal, lead, bitPeriod, 8), BitsLsb(payload[0], 8));
      assert DataSamples(signal, lead, bitPeriod, 8)[k - 1] == signal[Center(lead, bitPeriod, k)];
    }
  }

  lemma {:induction false} SurvivorHasCells(payload: seq<int>, bitPeriod: real, cell: nat, lead: nat, trail: nat)
    requires payload != [] && bitPeriod >= 1.0 && Survives(payload, bitPeriod, cell, lead, trail)
    ensures cell >= 1
  {
    hide Burst, Survives, DecodedFrame;
    FirstFrameRead(payload, bitPeriod, cell, lead, trail);
    BurstLength(payload, cell, lead, trail);
    if cell == 0 {
      assert Begin(|payload|, cell, lead) == lead;
      BurstIdle(payload, cell, lead, trail, lead);
      assert false;
    }
  }

  /** A single frame is high from its stop cell on. */
  lemma {:induction false} HighBehindOne(payload: seq<int>, cell: nat, lead: nat, trail: nat, o: int)
    requires |payload| == 1 && 9 * cell <= o && lead + o < |Burst(payload, cell, lead, trail)|
    ensures Burst(payload, cell, lead, trail)[lead + o]
  {
    hide Burst;
    BurstLength(payload, cell, lead, trail);
    assert Begin(0, cell, lead) == lead && Begin(1, cell, lead) == lead + CELLS * cell;
    if o < CELLS * cell {
      BurstAt(payload, cell, lead, trail, 0, 9, o);
    } else {
      BurstIdle(payload, cell, lead, trail, lead + o);
    }
  }

  lemma {:induction false} DataBitHit(bitPeriod: real, cell: nat, lead: nat, trail: nat, k: nat)
    requires bitPeriod >= 1.0 && cell >= 1 && 1 <= k <= 8
    requires Survives([0], bitPeriod, cell, lead, trail) && Survives([Pow2(k - 1)], bitPeriod, cell, lead, trail)
    ensures Hits(bitPeriod, cell, k)
  {
    hide Survives, Burst, Bit, Pow2, Midpoint;
    FirstBitsRead([0], bitPeriod, cell, lead, trail, k);
    FirstBitsRead([Pow2(k - 1)], bitPeriod, cell, lead, trail, k);
    var o: nat := Round(Midpoint(bitPeriod, k));
    assert Center(lead, bitPeriod, k) == lead + o;
    var c, rest := SplitOffset(o, cell);
    BitOfPow2(k - 1, k - 1);
    InCell(o, cell, c, rest, 9);
    MulSucc(c, cell);
    if c >= 9 {
      HighBehindOne([0], cell, lead, trail, o);
      assert false;
    }
    BurstAt([Pow2(k - 1)], cell, lead, trail, 0, c, o);
    assert Begin(0, cell, lead) == lead;
    if c >= 1 {
      BitOfPow2(k - 1, c - 1);
    }
  }

  lemma {:induction false} StopBitHit(bitPeriod: real, cell: nat, lead: nat, trail: nat)
    requires bitPeriod >= 1.0 && cell >= 1 && Hits(bitPeriod, cell, 8)
    requires Survives([0], bitPeriod, cell, lead, trail) && Survives([0, 0], bitPeriod, cell, lead, trail)
    ensures Hits(bitPeriod, cell, 9)
  {
    hide Survives, Burst, Bit, Round;
    FirstBitsRead([0], bitPeriod, cell, lead, trail, 9);
    FirstBitsRead([0, 0], bitPeriod, cell, lead, trail, 9);
    var o := Round(Midpoint(bitPeriod, 9));
    StopNearby(bitPeriod, cell);
    if o < 9 * cell {
      BurstAt([0], cell, lead, trail, 0, 8, o);
      BitOfPow2(0, 7);
    }
    if o >= 10 * cell {
      NextBegin(0, cell, lead);
      BurstAt([0, 0], cell, lead, trail, 1, 0, o - 10 * cell);
    }
  }

  lemma StopNearby(bitPeriod: real, cell: nat)
    requires bitPeriod >= 1.0 && cell >= 1 && Hits(bitPeriod, cell, 8)
    ensures 8 * cell <= Round(Midpoint(bitPeriod, 9)) < 11 * cell
  {
    assert bitPeriod * (8 as real + 0.5) == bitPeriod * 8.5 && bitPeriod * (9 as real + 0.5) == bitPeriod * 9.5;
    RoundMonotone(bitPeriod * 8.5, bitPeriod * 9.5);
    assert bitPeriod * 8.5 <= 9.0 * cell as real - 0.5;
  }

  /** Two events do not overlap, so a frame cannot end behind the start of the next. */
  lemma {:induction false} EndsBeforeNext(bitPeriod: real, cell: nat, lead: nat, trail: nat)
    requires bitPeriod >= 1.0 && Survives([0, 0], bitPeriod, cell, lead, trail)
    ensures Round(bitPeriod * 10.0) <= CELLS * cell
  {
    hide Burst, Scan, Round;
    ScanIsOrdered(Burst([0, 0], cell, lead, trail), 1, bitPeriod);
    var events := BurstEvents([0, 0], bitPeriod, cell, lead);
    assert events[0] == BurstEvent(0, 0, bitPeriod, cell, lead);
    assert events[1] == BurstEvent(0, 1, bitPeriod, cell, lead);
    NextBegin(0, cell, lead);
  }

  /** Every payload survives exactly when the two periods tolerate each other: a condition on
      the cell width and the decoder's bit period alone. */
  lemma {:induction false} ToleratesExactly(bitPeriod: real, cell: nat, lead: nat, trail: nat)
    requires bitPeriod >= 1.0 && lead >= 1
    ensures (forall payload :: Survives(payload, bitPeriod, cell, lead, trail)) <==> Tolerates(bitPeriod, cell)
  {
    hide Survives, Hits, Round;
    if Tolerates(bitPeriod, cell) {
      forall payload ensures Survives(payload, bitPeriod, cell, lead, trail) {
        ToleratedSurvives(payload, bitPeriod, cell, lead, trail);
      }
    } else if forall payload :: Survives(payload, bitPeriod, cell, lead, trail) {
      assert Survives([0], bitPeriod, cell, lead, trail) && Survives([0, 0], bitPeriod, cell, lead, trail);
      SurvivorHasCells([0], bitPeriod, cell, lead, trail);
      forall k | 1 <= k <= 8 ensures Hits(bitPeriod, cell, k) {
        assert Survives([Pow2(k - 1)], bitPeriod, cell, lead, trail);
        DataBitHit(bitPeriod, cell, lead, trail, k);
      }
      StopBitHit(bitPeriod, cell, lead, trail);
      EndsBeforeNext(bitPeriod, cell, lead, trail);
    }
  }

  // ---------------------------------------------------------------------------------------
  // The firmware's transmitter
  // ---------------------------------------------------------------------------------------

  lemma RoundAtMost(x: real, n: int)
    requires n % 2 == 0
    ensures Round(x) <= n <==> x <= n as real + 0.5
  {
  }

  /** A cell no wider than the period, as truncation makes it: what remains of the condition. */
  lemma {:induction false} NarrowTolerates(bitPeriod: real, cell: nat)
    requires 1.0 <= bitPeriod && cell as real <= bitPeriod
    ensures Tolerates(bitPeriod, cell) <==> cell >= 2 && Round(bitPeriod * 10.0) <= CELLS * cell
  {
    hide Hits, Round;
    if cell >= 2 && Round(bitPeriod * 10.0) <= CELLS * cell {
      RoundAtMost(bitPeriod * 10.0, CELLS * cell);
      forall k | 1 <= k <= 9 ensures Hits(bitPeriod, cell, k) {
        NarrowHits(bitPeriod, cell, k);
      }
    } else if Tolerates(bitPeriod, cell) {
      assert Hits(bitPeriod, cell, 1);
      HitNeedsTwo(bitPeriod, cell);
    }
  }

  lemma NarrowHits(bitPeriod: real, cell: nat, k: nat)
    requires cell as real <= bitPeriod <= cell as real + 0.05 && cell >= 2 && 1 <= k <= 9
    ensures Hits(bitPeriod, cell, k)
  {
    var late, x := bitPeriod - cell as real, Midpoint(bitPeriod, k);
    SplitMidpoint(bitPeriod, cell as real, k as real, late);
    SmallShift(k as real + 0.5, late);
    CellOf(x, k, cell);
  }

  lemma SmallShift(bits: real, late: real)
    requires 0.0 <= late <= 0.05 && 0.0 <= bits <= 9.5
    ensures 0.0 <= bits * late <= 0.475
  {
    Product(bits, late, bits * late);
    Product(bits, 0.05 - late, bits * 0.05 - bits * late);
  }

  lemma SplitMidpoint(t: real, cell: real, k: real, late: real)
    requires t == cell + late
    ensures t * (k + 0.5) == k * cell + 0.5 * cell + (k + 0.5) * late
  {
  }

  lemma HitNeedsTwo(bitPeriod: real, cell: nat)
    requires bitPeriod >= 1.0 && Hits(bitPeriod, cell, 1)
    ensures cell >= 2
  {
    assert bitPeriod * (1 as real + 0.5) == bitPeriod * 1.5;
    RoundMonotone(1.5, bitPeriod * 1.5);
    assert Round(1.5) == 2;
  }

  /** What an instrument with `rate` samples per microsecond records of `hw_uart_tx` on a line
      that idles high. */
  function Recorded(pin: int, baud: nat, payload: seq<int>, rate: nat, lead: nat, trail: nat): seq<bool> {
    var trace := Peripherals.UartTrace(pin, baud, EIGHT_N_ONE, false, payload);
    Fill(true, lead) + FirmwareWaves.Held(trace, pin, true, rate)
    + Fill(Peripherals.LevelAfter(trace, pin, true), trail)
  }

  lemma {:induction false} RecordedIsBurst(pin: int, baud: nat, payload: seq<int>, rate: nat, lead: nat, trail: nat)
    ensures Recorded(pin, baud, payload, rate, lead, trail)
         == Burst(payload, Peripherals.UartPeriod(baud) * rate, lead, trail)
  {
    hide Stretch, FrameLevels, Peripherals.LevelsTrace, Peripherals.UartPeriod;
    var period := Peripherals.UartPeriod(baud);
    var frames := Peripherals.LevelsTrace(pin, Frames(payload), false, period);
    var trace := [Peripherals.Put(pin, true)] + frames;
    assert trace[1..] == frames;
    FirmwareWaves.UartLine(pin, Frames(payload), false, period, true, rate);
    if payload != [] {
      FramesAt(payload, |payload| - 1, 9);
    }
  }

  /** The host, decoding at the nominal rate, gets exactly the payload. */
  ghost predicate HostHears(pin: int, baud: nat, payload: seq<int>, rate: nat, lead: nat, trail: nat) {
    baud > 0 &&
    Decoded(Recorded(pin, baud, payload, rate, lead, trail), rate * 1000000, baud, EIGHT_N_ONE)
    == Ok(BurstEvents(payload, (rate * 1000000) as real / baud as real, Peripherals.UartPeriod(baud) * rate, lead))
  }

  /** What truncating the bit period to whole microseconds costs, in samples. */
  lemma {:induction false} Truncation(baud: nat, rate: nat)
    requires baud > 0
    ensures var cell, period := Peripherals.UartPeriod(baud) * rate, (rate * 1000000) as real / baud as real;
      && cell as real <= period
      && (period * 10.0 <= (CELLS * cell) as real + 0.5 <==> 20 * rate * (1000000 % baud) <= baud)
  {
    var us, rest := 1000000 / baud, 1000000 % baud;
    var cell, period := us * rate, (rate * 1000000) as real / baud as real;
    assert us * baud + rest == 1000000;
    Distribute(us, baud, rest, rate);
    assert rate * 1000000 == cell * baud + rate * rest;
    ProductReal(cell, baud);
    ProductReal(rate, rest);
    assert period * baud as real == (rate * 1000000) as real;
    Excess(period, cell as real, baud as real, rate * rest);
    assert 20 * rate * rest == 20 * (rate * rest);
  }

  lemma Distribute(us: nat, baud: nat, rest: nat, rate: nat)
    ensures rate * (us * baud + rest) == us * rate * baud + rate * rest
    ensures rate * rest >= 0
  {
  }

  lemma ProductReal(a: nat, b: nat)
    ensures (a * b) as real == a as real * b as real
  {
    RealProduct(a, b);
  }

  lemma Excess(period: real, cell: real, baud: real, extra: nat)
    requires baud >= 1.0 && period * baud == cell * baud + extra as real
    ensures cell <= period
    ensures period * 10.0 <= cell * 10.0 + 0.5 <==> (20 * extra) as real <= baud
  {
    var late := period - cell;
    assert late * baud == extra as real;
    ScaleAtMost(0.0, late, baud);
    ScaleAtMost(late, 0.05, baud);
  }

  lemma ScaleAtMost(x: real, y: real, c: real)
    requires c > 0.0
    ensures x <= y <==> x * c <= y * c
  {
  }

  /** The host hears every payload of the firmware exactly when a bit lasts two samples and the
      truncated microseconds of a frame stay below half a sample. */
  lemma {:induction false} HostHearsExactly(pin: int, baud: nat, rate: nat, lead: nat, trail: nat)
    requires lead >= 1
    ensures (forall payload :: HostHears(pin, baud, payload, rate, lead, trail))
       <==> baud > 0 && Peripherals.UartPeriod(baud) * rate >= 2 && 20 * rate * (1000000 % baud) <= baud
  {
    hide Recorded, Scan, BurstEvents, Tolerates, Round, Peripherals.UartPeriod;
    if baud > 0 {
      var cell, period := Peripherals.UartPeriod(baud) * rate, (rate * 1000000) as real / baud as real;
      Truncation(baud, rate);
      if period >= 1.0 {
        RoundAtMost(period * 10.0, CELLS * cell);
        NarrowTolerates(period, cell);
        ToleratesExactly(period, cell, lead, trail);
        forall payload
          ensures HostHears(pin, baud, payload, rate, lead, trail) <==> Survives(payload, period, cell, lead, trail)
        {
          RecordedIsBurst(pin, baud, payload, rate, lead, trail);
        }
      } else {
        assert !HostHears(pin, baud, [], rate, lead, trail);
      }
    } else {
      assert !HostHears(pin, baud, [], rate, lead, trail);
    }
  }

  /** At 24 MS/s neither 9600 nor 115200 baud is heard; 10000 baud is. */
  lemma {:induction false} CommonRatesCanFail(pin: int, lead: nat, trail: nat)
    requires lead >= 1
    ensures exists payload :: !HostHears(pin, 9600, payload, 24, lead, trail)
    ensures exists payload :: !HostHears(pin, 115200, payload, 24, lead, trail)
    ensures forall payload :: HostHears(pin, 10000, payload, 24, lead, trail)
  {
    hide HostHears;
    HostHearsExactly(pin, 9600, 24, lead, trail);
    HostHearsExactly(pin, 115200, 24, lead, trail);
    HostHearsExactly(pin, 10000, 24, lead, trail);
  }
}
