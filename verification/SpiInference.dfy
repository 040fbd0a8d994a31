/** Telling CPHA by decoding twice, CPOL by the idle level, and chip select by confinement
    (src/slidko/measure/spi.py). */
module SpiInference {
  import opened Numbers
  import opened Results
  import opened Signals
  import opened Spi
  import opened SpiMode

  // ---------------------------------------------------------------------------------------
  // Coherence of a decode
  // ---------------------------------------------------------------------------------------

  predicate Printable(value: int) {
    0x20 <= value <= 0x7E
  }

  function ByteAt(bits: seq<bool>, i: nat): nat
    requires 8 * i + 8 <= |bits|
  {
    ValueMsb(bits[8 * i..8 * i + 8])
  }

  function CountPrintable(bits: seq<bool>, n: nat): nat
    requires 8 * n <= |bits|
  {
    if n == 0 then 0
    else CountPrintable(bits, n - 1) + (if Printable(ByteAt(bits, n - 1)) then 1 else 0)
  }

  /** What `_coherence_score` promises: the fraction of whole bytes that are printable. */
  function Coherence(bits: seq<bool>): real {
    if |bits| < 8 then 0.0
    else CountPrintable(bits, |bits| / 8) as real / (|bits| / 8) as real
  }

  method CoherenceScore(bits: seq<bool>) returns (score: real)
    ensures score == Coherence(bits)
  {
    if |bits| < 8 {
      return 0.0;
    }
    var bytes := |bits| / 8;
    var printable := 0;
    for i := 0 to bytes
      invariant printable == CountPrintable(bits, i)
    {
      var value := ShiftIn(bits[8 * i..8 * i + 8]);
      if 0x20 <= value <= 0x7E {
        printable := printable + 1;
      }
    }
    return printable as real / bytes as real;
  }

  lemma {:induction false} CountPrintableFull(bits: seq<bool>, n: nat)
    requires 8 * n <= |bits|
    ensures CountPrintable(bits, n) <= n
    ensures CountPrintable(bits, n) == n <==> forall i :: 0 <= i < n ==> Printable(ByteAt(bits, i))
  {
    if n > 0 {
      CountPrintableFull(bits, n - 1);
    }
  }

  lemma {:induction false} CoherenceFull(bits: seq<bool>, n: nat)
    requires |bits| == 8 * n && n >= 1
    ensures 0.0 <= Coherence(bits) <= 1.0
    ensures Coherence(bits) == 1.0 <==> forall i :: 0 <= i < n ==> Printable(ByteAt(bits, i))
  {
    CountPrintableFull(bits, n);
    Ratio(CountPrintable(bits, n), n);
  }

  lemma Ratio(k: nat, n: nat)
    requires k <= n && n >= 1
    ensures 0.0 <= k as real / n as real <= 1.0
    ensures k as real / n as real == 1.0 <==> k == n
  {
    var q := k as real / n as real;
    assert q * n as real == k as real;
  }

  // ---------------------------------------------------------------------------------------
  // CPHA
  // ---------------------------------------------------------------------------------------

  datatype ModeEstimate = ModeEstimate(cpol: bool, cpha: bool, confidence: real)

  /** What `detect_cpha` promises: the more coherent decode, and by how much. */
  function InferredMode(clock: seq<bool>, data: seq<bool>, cpol: bool): ModeEstimate
    requires |clock| <= |data|
  {
    var score0 := Coherence(DecodedBits(clock, data, Mode(cpol, false)));
    var score1 := Coherence(DecodedBits(clock, data, Mode(cpol, true)));
    if score0 >= score1 then ModeEstimate(cpol, false, Clamp01(score0 - score1))
    else ModeEstimate(cpol, true, Clamp01(score1 - score0))
  }

  method DetectCpha(clock: seq<bool>, data: seq<bool>, cpol: bool) returns (estimate: ModeEstimate)
    requires |clock| <= |data|
    ensures estimate == InferredMode(clock, data, cpol)
  {
    var bits0 := DecodeBits(clock, data, Mode(cpol, false));
    var bits1 := DecodeBits(clock, data, Mode(cpol, true));
    var score0 := CoherenceScore(bits0);
    var score1 := CoherenceScore(bits1);
    if score0 >= score1 {
      return ModeEstimate(cpol, false, Clamp01(score0 - score1));
    }
    return ModeEstimate(cpol, true, Clamp01(score1 - score0));
  }

  ghost predicate AllPrintable(payload: seq<int>) {
    forall i :: 0 <= i < |payload| ==> Printable(payload[i])
  }

  /** Decoded in the right phase, byte `i` is the payload byte. */
  lemma {:induction false} RightByte(payload: seq<int>, i: nat)
    requires i < |payload|
    ensures |PayloadBits(payload)| == 8 * |payload|
    ensures ByteAt(PayloadBits(payload), i) == payload[i] % 256
  {
    PayloadBitsAt(payload, i);
    BitsMsbRoundTrip(payload[i], 8);
    assert Pow2(8) == 256;
  }

  lemma {:induction false} ValueMsbCons(bit: bool, rest: seq<bool>)
    ensures ValueMsb([bit] + rest) == (if bit then Pow2(|rest|) else 0) + ValueMsb(rest)
  {
    var all := [bit] + rest;
    if rest == [] {
      assert all[..0] == [];
    } else {
      assert all[..|all| - 1] == [bit] + rest[..|rest| - 1];
      ValueMsbCons(bit, rest[..|rest| - 1]);
    }
  }

  lemma {:induction false} BitsMsbHalf(x: int)
    ensures BitsMsb(x, 8)[..7] == BitsMsb(x / 2, 7)
    ensures BitsMsb(x, 8)[7] == (x % 2 == 1)
  {
    forall i | 0 <= i < 7 ensures BitsMsb(x, 8)[i] == BitsMsb(x / 2, 7)[i] {
      BitHalf(x, 6 - i);
    }
    BitZero(x);
  }

  /** The bits of a generated CPHA=1 burst read one edge early. */
  function LateBits(payload: seq<int>): seq<bool>
    requires payload != []
  {
    PayloadBitsLength(payload);
    [false] + PayloadBits(payload)[..|PayloadBits(payload)| - 1]
  }

  /** Byte `i` of the late bits: the last bit of the byte before, then seven bits of its own. */
  lemma {:induction false} LateByte(payload: seq<int>, i: nat)
    requires i < |payload|
    ensures |LateBits(payload)| == 8 * |payload|
    ensures ByteAt(LateBits(payload), i)
         == (if i > 0 && payload[i - 1] % 2 == 1 then 128 else 0) + payload[i] / 2 % 128
  {
    var carry := i > 0 && payload[i - 1] % 2 == 1;
    LateSlice(payload, i);
    ValueMsbCons(carry, BitsMsb(payload[i] / 2, 7));
    BitsMsbRoundTrip(payload[i] / 2, 7);
    assert Pow2(7) == 128;
  }

  lemma {:induction false} LateSlice(payload: seq<int>, i: nat)
    requires i < |payload|
    ensures |LateBits(payload)| == 8 * |payload|
    ensures LateBits(payload)[8 * i..8 * i + 8]
         == [i > 0 && payload[i - 1] % 2 == 1] + BitsMsb(payload[i] / 2, 7)
  {
    var bits, late, at := PayloadBits(payload), LateBits(payload), 8 * i;
    PayloadBitsAt(payload, i);
    BitsMsbHalf(payload[i]);
    assert late[at] == (i > 0 && payload[i - 1] % 2 == 1) by {
      if i > 0 {
        PayloadBitsAt(payload, i - 1);
        BitsMsbHalf(payload[i - 1]);
        assert bits[at - 1] == bits[at - 8..at][7];
      }
    }
    DelayedSlice(bits, at);
  }

  lemma {:induction false} DelayedSlice(bits: seq<bool>, at: nat)
    requires at + 8 <= |bits|
    ensures var late := [false] + bits[..|bits| - 1];
      late[at..at + 8] == [late[at]] + bits[at..at + 8][..7]
  {
    var late := [false] + bits[..|bits| - 1];
    var own := late[at..at + 8][1..];
    assert forall k :: 0 <= k < |own| ==> own[k] == bits[at + k];
    assert own == bits[at..at + 8][..7];
  }

  /** A byte that gives the wrong phase away: an unprintable half, or an odd byte before another. */
  ghost predicate RevealsPhase(payload: seq<int>, i: int) {
    0 <= i < |payload| && (payload[i] < 0x40 || (i + 1 < |payload| && payload[i] % 2 == 1))
  }

  lemma {:induction false} LatePrintable(payload: seq<int>)
    requires AllPrintable(payload) && payload != []
    ensures |LateBits(payload)| == 8 * |payload|
    ensures (forall i :: 0 <= i < |payload| ==> Printable(ByteAt(LateBits(payload), i)))
       <==> !exists i :: RevealsPhase(payload, i)
  {
    LateByte(payload, 0);
    forall i | 0 <= i < |payload|
      ensures Printable(ByteAt(LateBits(payload), i))
         <==> payload[i] >= 0x40 && !(i > 0 && payload[i - 1] % 2 == 1)
    {
      LateByte(payload, i);
    }
    if i :| RevealsPhase(payload, i) {
      var j := if payload[i] < 0x40 then i else i + 1;
      LateByte(payload, j);
      assert !Printable(ByteAt(LateBits(payload), j));
    }
    if i :| 0 <= i < |payload| && !Printable(ByteAt(LateBits(payload), i)) {
      assert RevealsPhase(payload, i) || RevealsPhase(payload, i - 1);
    }
  }

  /** On printable text the phase is always recognised when CPHA is clear; when it is set it is
      recognised exactly when some byte gives it away, and a wrong answer has no confidence. */
  lemma {:induction false} PhaseInference(payload: seq<int>, mode: Mode, half: nat)
    requires half >= 1 && payload != [] && AllPrintable(payload)
    ensures var waves := BurstWaves(PayloadBits(payload), mode, half);
      && |waves.sck| == |waves.mosi|
      && var estimate := InferredMode(waves.sck, waves.mosi, mode.cpol);
      && (estimate.cpha == mode.cpha <==> !mode.cpha || exists i :: RevealsPhase(payload, i))
      && (estimate.cpha != mode.cpha ==> estimate.confidence == 0.0)
  {
    var bits := PayloadBits(payload);
    PayloadBitsLength(payload);
    RightCoherence(payload);
    PhaseTheorem(bits, mode, half, false);
    PhaseTheorem(bits, mode, half, true);
    if mode.cpha {
      LatePrintable(payload);
      CoherenceFull(LateBits(payload), |payload|);
    } else {
      CoherenceFull(bits[1..] + [false], |payload|);
    }
  }

  lemma {:induction false} RightCoherence(payload: seq<int>)
    requires payload != [] && AllPrintable(payload)
    ensures Coherence(PayloadBits(payload)) == 1.0
  {
    PayloadBitsLength(payload);
    CoherenceFull(PayloadBits(payload), |payload|);
    forall i | 0 <= i < |payload| ensures Printable(ByteAt(PayloadBits(payload), i)) {
      RightByte(payload, i);
    }
  }

  // ---------------------------------------------------------------------------------------
  // CPOL and chip select
  // ---------------------------------------------------------------------------------------

  /** Samples where `mask` is set, and how many of them are high. */
  function CountMasked(s: seq<bool>, mask: seq<bool>): (r: (nat, nat))
    requires |s| == |mask|
    ensures r.0 <= r.1
  {
    if s == [] then (0, 0)
    else
      var n := |s| - 1;
      var rest := CountMasked(s[..n], mask[..n]);
      if mask[n] then (rest.0 + (if s[n] then 1 else 0), rest.1 + 1) else rest
  }

  /** `detect_cpol`: the majority clock level while chip select is high, or at all when it
      never is. */
  predicate DetectCpol(clock: seq<bool>, cs: seq<bool>)
    requires |clock| == |cs|
  {
    var idle := CountMasked(clock, cs);
    var (highs, total) := if idle.1 > 0 then idle else CountMasked(clock, Fill(true, |clock|));
    2 * highs > total
  }

  lemma {:induction false} MaskedConstant(s: seq<bool>, mask: seq<bool>, level: bool)
    requires |s| == |mask|
    requires forall i :: 0 <= i < |s| && mask[i] ==> s[i] == level
    ensures CountMasked(s, mask).0 == if level then CountMasked(s, mask).1 else 0
    ensures (exists i :: 0 <= i < |s| && mask[i]) ==> CountMasked(s, mask).1 > 0
  {
    if s != [] {
      var n := |s| - 1;
      MaskedConstant(s[..n], mask[..n], level);
      if i :| 0 <= i < |s| && mask[i] {
        assert i < n ==> mask[..n][i];
      }
    }
  }

  function CountLow(cs: seq<bool>, edges: seq<Edge>): nat
    requires forall i :: 0 <= i < |edges| ==> 0 <= edges[i].index < |cs|
  {
    if edges == [] then 0
    else CountLow(cs, edges[..|edges| - 1]) + (if cs[edges[|edges| - 1].index] then 0 else 1)
  }

  lemma {:induction false} EdgesInRange(c: seq<bool>)
    ensures forall i :: 0 <= i < |Edges(c)| ==> 0 <= Edges(c)[i].index < |c|
  {
    EdgesExact(c);
    forall i | 0 <= i < |Edges(c)| ensures 0 <= Edges(c)[i].index < |c| {
      EdgeAt(c, Edges(c), i);
    }
  }

  /** `clock_confined_to_cs`: how far chip select toggles just twice and the clock runs only
      while it is low. */
  function Confinement(clock: seq<bool>, cs: seq<bool>): real
    requires |clock| == |cs|
  {
    EdgesInRange(clock);
    var transitions := |Edges(cs)|;
    var edges := Edges(clock);
    if edges == [] then 0.0
    else
      (if transitions <= 2 then 1.0 else 2.0 / transitions as real)
      * (CountLow(cs, edges) as real / |edges| as real)
  }

  /** While chip select is high the clock rests, and every clock edge finds it low. */
  lemma {:induction false} CellsConfined(bits: seq<bool>, mode: Mode, c: nat)
    requires bits != []
    ensures var clk, cs := Framed(mode.cpol, mode.cpol, ClockCells(bits, mode)),
        Framed(true, false, Fill(false, 2 * |bits|));
      && |clk| == |cs| == 2 * |bits| + 12
      && (c < |cs| && cs[c] ==> clk[c] == mode.cpol)
      && (0 < c < |cs| && clk[c - 1] != clk[c] ==> !cs[c])
  {
    ClockCellsLength(bits, mode);
  }

  lemma {:induction false} ClockCellsLength(bits: seq<bool>, mode: Mode)
    ensures |ClockCells(bits, mode)| == 2 * |bits|
  {
    if bits != [] {
      ClockCellsLength(bits[1..], mode);
    }
  }

  lemma {:induction false} PolarityRecovered(bits: seq<bool>, mode: Mode, half: nat)
    requires half >= 1 && bits != []
    ensures var waves := BurstWaves(bits, mode, half);
      |waves.sck| == |waves.cs| && DetectCpol(waves.sck, waves.cs) == mode.cpol
  {
    var clk, cs := Framed(mode.cpol, mode.cpol, ClockCells(bits, mode)), Framed(true, false, Fill(false, 2 * |bits|));
    CellsConfined(bits, mode, 0);
    StretchLength(clk, half);
    StretchLength(cs, half);
    forall i | 0 <= i < |Stretch(cs, half)| && Stretch(cs, half)[i]
      ensures Stretch(clk, half)[i] == mode.cpol
    {
      var c := CellIndex(i, half, |cs|);
      StretchCell(clk, half, c, i - c * half);
      StretchCell(cs, half, c, i - c * half);
      CellsConfined(bits, mode, c);
    }
    StretchCell(cs, half, 0, 0);
    assert Stretch(cs, half)[0];
    MaskedConstant(Stretch(clk, half), Stretch(cs, half), mode.cpol);
  }

  lemma CellIndex(i: nat, cell: nat, cells: nat) returns (c: nat)
    requires cell >= 1 && i < cells * cell
    ensures c < cells && c * cell <= i < c * cell + cell
  {
    c := i / cell;
    if c >= cells {
      MulMonotone(cells, c, cell);
    }
  }

  lemma {:induction false} CountLowAll(cs: seq<bool>, edges: seq<Edge>)
    requires forall i :: 0 <= i < |edges| ==> 0 <= edges[i].index < |cs| && !cs[edges[i].index]
    ensures CountLow(cs, edges) == |edges|
  {
    if edges != [] {
      CountLowAll(cs, edges[..|edges| - 1]);
    }
  }

  lemma {:induction false} SelectEdges(bits: seq<bool>)
    ensures Edges(Framed(true, false, Fill(false, 2 * |bits|)))
         == [Edge(IDLE_CELLS, false), Edge(IDLE_CELLS + 2 * LEAD_CELLS + 2 * |bits|, true)]
  {
    var low := 2 * LEAD_CELLS + 2 * |bits|;
    EdgesAppendRun([], true, IDLE_CELLS);
    assert [] + Fill(true, IDLE_CELLS) == Fill(true, IDLE_CELLS);
    EdgesAppendRun(Fill(true, IDLE_CELLS), false, low);
    EdgesAppendRun(Fill(true, IDLE_CELLS) + Fill(false, low), true, IDLE_CELLS);
    assert Fill(true, IDLE_CELLS) + Fill(false, low) + Fill(true, IDLE_CELLS)
        == Framed(true, false, Fill(false, 2 * |bits|));
  }

  lemma {:induction false} ClockToggles(bits: seq<bool>, mode: Mode)
    requires bits != []
    ensures Edges(Framed(mode.cpol, mode.cpol, ClockCells(bits, mode))) != []
  {
    var clk := Framed(mode.cpol, mode.cpol, ClockCells(bits, mode));
    ClockCellsLength(bits, mode);
    EdgesExact(clk);
    var at := IDLE_CELLS + LEAD_CELLS + (if mode.cpha then 0 else 1);
    assert ClockCells(bits, mode)[0] == ClockPair(mode)[0] && ClockCells(bits, mode)[1] == ClockPair(mode)[1];
    assert IsEdge(clk, at);
    var k := FindEdge(clk, Edges(clk), at);
  }

  /** Chip select of a generated burst looks exactly like one. */
  lemma {:induction false} FullyConfined(bits: seq<bool>, mode: Mode, half: nat)
    requires half >= 1 && bits != []
    ensures var waves := BurstWaves(bits, mode, half);
      |waves.sck| == |waves.cs| && Confinement(waves.sck, waves.cs) == 1.0
  {
    var clk, cs := Framed(mode.cpol, mode.cpol, ClockCells(bits, mode)), Framed(true, false, Fill(false, 2 * |bits|));
    CellsConfined(bits, mode, 0);
    StretchLength(clk, half);
    StretchLength(cs, half);
    EdgesStretch(clk, half);
    EdgesStretch(cs, half);
    SelectEdges(bits);
    ClockToggles(bits, mode);
    EdgesInRange(Stretch(clk, half));
    var edges := Edges(Stretch(clk, half));
    forall i | 0 <= i < |edges| ensures !Stretch(cs, half)[edges[i].index] {
      ClockEdgeSelected(bits, mode, half, i);
    }
    CountLowAll(Stretch(cs, half), edges);
    Ratio(|edges|, |edges|);
  }

  lemma {:induction false} ClockEdgeSelected(bits: seq<bool>, mode: Mode, half: nat, i: nat)
    requires half >= 1 && bits != []
    requires i < |Edges(Framed(mode.cpol, mode.cpol, ClockCells(bits, mode)))|
    ensures var clk, cs := Framed(mode.cpol, mode.cpol, ClockCells(bits, mode)),
        Framed(true, false, Fill(false, 2 * |bits|));
      var at := Edges(clk)[i].index * half;
      0 <= at < |Stretch(cs, half)| && !Stretch(cs, half)[at]
  {
    var clk, cs := Framed(mode.cpol, mode.cpol, ClockCells(bits, mode)), Framed(true, false, Fill(false, 2 * |bits|));
    EdgesExact(clk);
    EdgeAt(clk, Edges(clk), i);
    CellsConfined(bits, mode, Edges(clk)[i].index);
    StretchCell(cs, half, Edges(clk)[i].index, 0);
  }

  /** With the roles known, the inference recovers the mode of every generated capture whose
      printable payload gives the phase away; the polarity it recovers always. */
  lemma {:induction false} ModeRecovered(g: Generator)
    requires g.speed != 0 && AllPrintable(g.Payload())
    ensures g.Signal().Ok?
    ensures var waves := g.Signal().value;
      && |waves.sck| == |waves.mosi| == |waves.cs|
      && Confinement(waves.sck, waves.cs) == 1.0
      && var cpol := DetectCpol(waves.sck, waves.cs);
      && cpol == g.mode.cpol
      && (InferredMode(waves.sck, waves.mosi, cpol).cpha == g.mode.cpha
          <==> !g.mode.cpha || exists i :: RevealsPhase(g.Payload(), i))
  {
    PayloadBitsLength(g.Payload());
    PolarityRecovered(PayloadBits(g.Payload()), g.mode, g.HalfPeriod());
    FullyConfined(PayloadBits(g.Payload()), g.mode, g.HalfPeriod());
    PhaseInference(g.Payload(), g.mode, g.HalfPeriod());
  }
}
