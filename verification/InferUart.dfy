/** `infer_uart` (src/slidko/measure/uart.py): baud snap, start-bit framing and confidence, and
    the round trip that needs no parameters at all. */
module InferUart {
  import opened Numbers
  import opened Results
  import opened Signals
  import opened Uart
  import opened AutoBaud

  datatype Candidate = Candidate(baud: int, format: Format)

  const STANDARD_BAUDS: seq<int> :=
    [110, 300, 600, 1200, 2400, 4800, 9600, 14400, 19200, 28800, 38400, 57600, 76800, 115200,
     230400, 250000, 460800, 500000, 921600, 1000000]

  const SBUS_BAUD := 100000
  const BAUD_SNAP_TOLERANCE := 0.03
  const FRAMING_ERROR_TOLERANCE := 0.15

  // ---------------------------------------------------------------------------------------
  // Snapping to the baud table
  // ---------------------------------------------------------------------------------------

  /** The standard rates, then the SBUS exception. */
  function Candidates(): seq<Candidate> {
    seq(|STANDARD_BAUDS|, i requires 0 <= i < |STANDARD_BAUDS| => Candidate(STANDARD_BAUDS[i], EIGHT_N_ONE))
    + [Candidate(SBUS_BAUD, EIGHT_E_TWO)]
  }

  function RelativeError(baud: int, raw: real): real
    requires baud > 0
  {
    Abs(baud as real - raw) / baud as real
  }

  ghost predicate PositiveRates(cs: seq<Candidate>) {
    forall i :: 0 <= i < |cs| ==> cs[i].baud > 0
  }

  /** `min(candidates, key=...)`: the first candidate of least relative error. */
  function Nearest(cs: seq<Candidate>, raw: real): (c: Candidate)
    requires cs != [] && PositiveRates(cs)
    ensures c in cs
    ensures forall i :: 0 <= i < |cs| ==> RelativeError(c.baud, raw) <= RelativeError(cs[i].baud, raw)
  {
    var n := |cs| - 1;
    if n == 0 then cs[0]
    else
      var best := Nearest(cs[..n], raw);
      if RelativeError(cs[n].baud, raw) < RelativeError(best.baud, raw) then cs[n] else best
  }

  ghost predicate InTable(baud: int) {
    baud in STANDARD_BAUDS || baud == SBUS_BAUD
  }

  function FormatOf(baud: int): Format {
    if baud == SBUS_BAUD then EIGHT_E_TWO else EIGHT_N_ONE
  }

  lemma CandidatesAreTheTable(c: Candidate)
    ensures c in Candidates() <==> InTable(c.baud) && c.format == FormatOf(c.baud)
    ensures InTable(c.baud) ==> c.baud > 0
  {
    var cs := Candidates();
    assert SBUS_BAUD !in STANDARD_BAUDS;
    if InTable(c.baud) && c.format == FormatOf(c.baud) {
      if c.baud == SBUS_BAUD {
        assert cs[20] == c;
      } else {
        var i :| 0 <= i < |STANDARD_BAUDS| && STANDARD_BAUDS[i] == c.baud;
        assert cs[i] == c;
      }
    }
  }

  lemma TablePositive()
    ensures PositiveRates(Candidates())
  {
    forall i | 0 <= i < |Candidates()| ensures Candidates()[i].baud > 0 {
      CandidatesAreTheTable(Candidates()[i]);
      assert Candidates()[i] in Candidates();
    }
  }

  /** All rates, SBUS included, in rising order. */
  const RISING_BAUDS: seq<int> :=
    [110, 300, 600, 1200, 2400, 4800, 9600, 14400, 19200, 28800, 38400, 57600, 76800, 100000, 115200,
     230400, 250000, 460800, 500000, 921600, 1000000]

  ghost predicate Apart(low: int, high: int) {
    0 < low && 1085 * low <= 1000 * high
  }

  lemma {:induction false} RisingApart(i: nat, j: nat)
    requires i < j < |RISING_BAUDS|
    ensures Apart(RISING_BAUDS[i], RISING_BAUDS[j])
    decreases j - i
  {
    if i + 1 < j {
      RisingApart(i, j - 1);
      RisingApart(j - 1, j);
    }
  }

  /** Distinct rates of the table lie at least 8.5 percent apart. */
  lemma TableApart(a: int, b: int)
    requires InTable(a) && InTable(b) && a < b
    ensures Apart(a, b)
  {
    assert a in RISING_BAUDS && b in RISING_BAUDS;
    var i :| 0 <= i < |RISING_BAUDS| && RISING_BAUDS[i] == a;
    var j :| 0 <= j < |RISING_BAUDS| && RISING_BAUDS[j] == b;
    if i < j {
      RisingApart(i, j);
    } else if j < i {
      RisingApart(j, i);
    }
  }

  /** A raw rate within 1/26 of a table rate is farther from every other one. */
  lemma OthersAreFarther(baud: int, other: int, raw: real)
    requires baud > 0 && other > 0 && (Apart(baud, other) || Apart(other, baud))
    requires Abs(baud as real - raw) <= baud as real / 26.0
    ensures RelativeError(baud, raw) <= 1.0 / 26.0 < RelativeError(other, raw)
  {
    var b, c := baud as real, other as real;
    DivideAtMost(Abs(b - raw), b, 1.0 / 26.0);
    assert 1000.0 * b >= 1085.0 * c || 1000.0 * c >= 1085.0 * b;
    FarFrom(b, c, raw);
    DivideMoreThan(Abs(c - raw), c, 1.0 / 26.0);
  }

  lemma FarFrom(b: real, c: real, raw: real)
    requires b > 0.0 && c > 0.0 && (b >= 1.085 * c || c >= 1.085 * b)
    requires Abs(b - raw) <= b / 26.0
    ensures Abs(c - raw) > c * (1.0 / 26.0)
  {
  }

  lemma DivideAtMost(x: real, y: real, q: real)
    requires y > 0.0 && x <= y * q
    ensures x / y <= q
  {
  }

  lemma DivideMoreThan(x: real, y: real, q: real)
    requires y > 0.0 && x > y * q
    ensures x / y > q
  {
  }

  /** The snap recovers the true rate from a rounded bit period of at least 13 samples. */
  lemma {:induction false} SnapIsExact(baud: int, raw: real)
    requires InTable(baud) && baud > 0
    requires Abs(baud as real - raw) <= baud as real / 26.0
    ensures PositiveRates(Candidates())
    ensures Nearest(Candidates(), raw) == Candidate(baud, FormatOf(baud))
  {
    TablePositive();
    var best := Nearest(Candidates(), raw);
    CandidatesAreTheTable(best);
    CandidatesAreTheTable(Candidate(baud, FormatOf(baud)));
    var i :| 0 <= i < |Candidates()| && Candidates()[i] == Candidate(baud, FormatOf(baud));
    assert RelativeError(best.baud, raw) <= RelativeError(baud, raw);
    if best.baud != baud {
      TableApart(Min(best.baud, baud), Max(best.baud, baud));
      OthersAreFarther(baud, best.baud, raw);
      assert false;
    }
  }

  lemma RawRate(sampleRate: int, baud: int, bitSamples: int)
    requires baud > 0 && bitSamples >= 1 && bitSamples == Round(sampleRate as real / baud as real)
    ensures Abs(baud as real - sampleRate as real / bitSamples as real) <= baud as real / (2.0 * bitSamples as real)
  {
    var s, b, n := sampleRate as real, baud as real, bitSamples as real;
    var t, x := s / b, s / n;
    Quotient(s, b, t);
    Quotient(s, n, x);
    Deviation(n - t, b, n * b - s);
    Unscale(b - x, b, n, n * b - s);
  }

  lemma Quotient(x: real, y: real, q: real)
    requires y > 0.0 && q == x / y
    ensures q * y == x
  {
  }

  lemma Deviation(d: real, b: real, product: real)
    requires b > 0.0 && -0.5 <= d <= 0.5 && product == d * b
    ensures Abs(product) <= 0.5 * b
  {
    NonNegativeProduct(0.5 - d, b, 0.5 * b - product);
    NonNegativeProduct(0.5 + d, b, 0.5 * b + product);
  }

  lemma NonNegativeProduct(x: real, y: real, p: real)
    requires x >= 0.0 && y >= 0.0 && p == x * y
    ensures p >= 0.0
  {
  }

  lemma Unscale(d: real, b: real, n: real, product: real)
    requires n > 0.0 && b > 0.0 && product == d * n && Abs(product) <= 0.5 * b
    ensures Abs(d) <= b / (2.0 * n)
  {
    assert Abs(d) * n == Abs(product);
    assert (b / (2.0 * n)) * (2.0 * n) == b;
    assert (b / (2.0 * n)) * n == 0.5 * b;
    assert (b / (2.0 * n) - Abs(d)) * n >= 0.0;
  }

  // ---------------------------------------------------------------------------------------
  // Start-bit framing
  // ---------------------------------------------------------------------------------------

  function RunLength(channel: seq<bool>, start: nat, level: bool): (n: nat)
    ensures start <= |channel| ==> start + n <= |channel|
    decreases |channel| - start
  {
    if start < |channel| && channel[start] == level then 1 + RunLength(channel, start + 1, level) else 0
  }

  /** How far a run is from the given number of bit periods, in bit periods. */
  function FramingError(run: nat, multiple: int, bitPeriod: real): real
    requires bitPeriod > 0.0
  {
    Abs(run as real - multiple as real * bitPeriod) / bitPeriod
  }

  /** A run of this length rounds cleanly to a whole number of bit periods. */
  predicate CleanLength(run: nat, bitPeriod: real)
    requires bitPeriod > 0.0
  {
    var multiple := Round(run as real / bitPeriod);
    multiple >= 1 && FramingError(run, multiple, bitPeriod) < FRAMING_ERROR_TOLERANCE
  }

  predicate CleanRun(channel: seq<bool>, start: nat, bitPeriod: real, active: bool)
    requires bitPeriod > 0.0
  {
    CleanLength(RunLength(channel, start, active), bitPeriod)
  }

  function CountClean(channel: seq<bool>, starts: seq<int>, bitPeriod: real, active: bool): nat
    requires bitPeriod > 0.0 && forall i :: 0 <= i < |starts| ==> starts[i] >= 0
  {
    if starts == [] then 0
    else
      var n := |starts| - 1;
      CountClean(channel, starts[..n], bitPeriod, active)
      + (if CleanRun(channel, starts[n], bitPeriod, active) then 1 else 0)
  }

  ghost predicate NonNegative(starts: seq<int>) {
    forall i :: 0 <= i < |starts| ==> starts[i] >= 0
  }

  lemma {:induction false} DeparturesAreEdges(edges: seq<Edge>, active: bool)
    requires Indexed(edges)
    ensures NonNegative(IndicesOf(edges, active))
    ensures forall d :: d in IndicesOf(edges, active) <==> Edge(d, active) in edges
  {
    if edges != [] {
      var n := |edges| - 1;
      DeparturesAreEdges(edges[..n], active);
      assert edges == edges[..n] + [edges[n]];
    }
  }

  lemma {:induction false} EdgesNonNegative(channel: seq<bool>)
    ensures Indexed(Edges(channel))
  {
    EdgesExact(channel);
    forall i | 0 <= i < |Edges(channel)| ensures Edges(channel)[i].index >= 0 {
      EdgeAt(channel, Edges(channel), i);
    }
  }

  ghost predicate Indexed(edges: seq<Edge>) {
    forall i :: 0 <= i < |edges| ==> edges[i].index >= 0
  }

  /** What `check_start_bit_framing` promises of any edge list: the fraction of departures from
      idle that start a clean run. */
  function FramingScore(channel: seq<bool>, edges: seq<Edge>, bitPeriod: real, idleHigh: bool): real
    requires Indexed(edges)
  {
    if bitPeriod <= 0.0 then 0.0
    else
      DeparturesAreEdges(edges, !idleHigh);
      var departures := IndicesOf(edges, !idleHigh);
      if departures == [] then 0.0
      else CountClean(channel, departures, bitPeriod, !idleHigh) as real / |departures| as real
  }

  method CheckStartBitFraming(channel: seq<bool>, edges: seq<Edge>, bitPeriod: real, idleHigh: bool)
    returns (score: real)
    requires Indexed(edges)
    ensures score == FramingScore(channel, edges, bitPeriod, idleHigh)
  {
    if bitPeriod <= 0.0 {
      return 0.0;
    }
    var active := !idleHigh;
    DeparturesAreEdges(edges, active);
    var departures := IndicesOf(edges, active);
    if departures == [] {
      return 0.0;
    }
    var scored := CountScored(channel, departures, bitPeriod, active);
    return scored as real / |departures| as real;
  }

  /** The outer loop of `check_start_bit_framing`. */
  method CountScored(channel: seq<bool>, departures: seq<int>, bitPeriod: real, active: bool) returns (scored: nat)
    requires bitPeriod > 0.0 && forall i :: 0 <= i < |departures| ==> departures[i] >= 0
    ensures scored == CountClean(channel, departures, bitPeriod, active)
  {
    scored := 0;
    for i := 0 to |departures|
      invariant scored == CountClean(channel, departures[..i], bitPeriod, active)
    {
      assert departures[..i + 1][..i] == departures[..i];
      var runLength := MeasureRun(channel, departures[i], active);
      var clean := CheckRun(runLength, bitPeriod);
      scored := scored + (if clean then 1 else 0);
    }
    assert departures[..|departures|] == departures;
  }

  /** The loop body: runs below half a bit period and runs off the grid do not score. */
  method CheckRun(runLength: nat, bitPeriod: real) returns (clean: bool)
    requires bitPeriod > 0.0
    ensures clean == CleanLength(runLength, bitPeriod)
  {
    var multiple := Round(runLength as real / bitPeriod);
    if multiple < 1 {
      return false;
    }
    var err := FramingError(runLength, multiple, bitPeriod);
    return err < FRAMING_ERROR_TOLERANCE;
  }

  /** The inner loop of `check_start_bit_framing`. */
  method MeasureRun(channel: seq<bool>, start: nat, active: bool) returns (n: nat)
    ensures n == RunLength(channel, start, active)
  {
    var end := start;
    while end < |channel| && channel[end] == active
      invariant start <= end
      invariant (end - start) + RunLength(channel, end, active) == RunLength(channel, start, active)
    {
      end := end + 1;
    }
    n := end - start;
  }

  // --- framing of stretched signals

  lemma {:induction false} RunInCell(levels: seq<bool>, cell: nat, c: nat, o: nat)
    requires c < |levels| && o <= cell
    ensures c * cell + o <= |Stretch(levels, cell)|
    ensures RunLength(Stretch(levels, cell), c * cell + o, levels[c])
         == cell - o + RunLength(Stretch(levels, cell), c * cell + cell, levels[c])
    decreases cell - o
  {
    if o < cell {
      StretchCell(levels, cell, c, o);
      RunInCell(levels, cell, c, o + 1);
    } else {
      StretchLength(levels, cell);
      MulMonotone(c + 1, |levels|, cell);
    }
  }

  /** A run of a stretched signal lasts a whole number of cells. */
  lemma {:induction false} RunOfCells(levels: seq<bool>, cell: nat, c: nat, level: bool)
    requires c <= |levels| && cell >= 1
    ensures RunLength(Stretch(levels, cell), c * cell, level) == RunLength(levels, c, level) * cell
    decreases |levels| - c
  {
    hide Stretch;
    StretchLength(levels, cell);
    if c < |levels| {
      if levels[c] == level {
        RunInCell(levels, cell, c, 0);
        RunOfCells(levels, cell, c + 1, level);
        var rest := RunLength(levels, c + 1, level);
        assert (1 + rest) * cell == cell + rest * cell;
        assert (c + 1) * cell == c * cell + cell;
      } else {
        StretchCell(levels, cell, c, 0);
      }
    }
  }

  lemma {:induction false} CellRunsAreClean(levels: seq<bool>, cell: nat, c: nat, active: bool)
    requires c < |levels| && cell >= 1 && levels[c] == active
    ensures CleanRun(Stretch(levels, cell), c * cell, cell as real, active)
  {
    RunOfCells(levels, cell, c, active);
    CleanMultiple(RunLength(levels, c, active), cell);
  }

  lemma CleanMultiple(m: nat, cell: nat)
    requires m >= 1 && cell >= 1
    ensures CleanLength(m * cell, cell as real)
  {
    ProductAsReal(m, cell);
    Cancel(cell as real, m as real);
    assert (m * cell) as real / cell as real == m as real;
    RoundOfInteger(m);
  }

  lemma {:induction false} AllCleanCount(channel: seq<bool>, starts: seq<int>, bitPeriod: real, active: bool)
    requires bitPeriod > 0.0 && NonNegative(starts)
    requires forall i :: 0 <= i < |starts| ==> CleanRun(channel, starts[i], bitPeriod, active)
    ensures CountClean(channel, starts, bitPeriod, active) == |starts|
  {
    if starts != [] {
      AllCleanCount(channel, starts[..|starts| - 1], bitPeriod, active);
    }
  }

  /** Every departure of a stretched signal is framed perfectly. */
  lemma {:induction false} CellFramingIsPerfect(levels: seq<bool>, cell: nat, idleHigh: bool)
    requires cell >= 1 && HasPolarity(Edges(levels), !idleHigh)
    ensures Indexed(Edges(Stretch(levels, cell)))
    ensures FramingScore(Stretch(levels, cell), Edges(Stretch(levels, cell)), cell as real, idleHigh) == 1.0
  {
    hide Edges, Stretch, CountClean, IndicesOf, CleanRun;
    var channel, active := Stretch(levels, cell), !idleHigh;
    EdgesNonNegative(channel);
    DeparturesAreEdges(Edges(channel), active);
    var departures := IndicesOf(Edges(channel), active);
    HasDeparture(levels, cell, active);
    forall i | 0 <= i < |departures| ensures CleanRun(channel, departures[i], cell as real, active) {
      assert departures[i] in departures;
      DepartureIsClean(levels, cell, departures[i], active);
    }
    AllCleanCount(channel, departures, cell as real, active);
    Cancel(|departures| as real, 1.0);
  }

  lemma {:induction false} HasDeparture(levels: seq<bool>, cell: nat, active: bool)
    requires cell >= 1 && HasPolarity(Edges(levels), active)
    ensures IndicesOf(Edges(Stretch(levels, cell)), active) != []
  {
    EdgesStretch(levels, cell);
    var edges := Edges(Stretch(levels, cell));
    EdgesNonNegative(Stretch(levels, cell));
    DeparturesAreEdges(edges, active);
    var k :| 0 <= k < |Edges(levels)| && Edges(levels)[k].rising == active;
    assert edges[k] in edges;
    assert edges[k].index in IndicesOf(edges, active);
  }

  lemma {:induction false} DepartureIsClean(levels: seq<bool>, cell: nat, d: int, active: bool)
    requires cell >= 1 && Edge(d, active) in Edges(Stretch(levels, cell))
    ensures d >= 0 && CleanRun(Stretch(levels, cell), d, cell as real, active)
  {
    EdgesStretch(levels, cell);
    EdgesExact(levels);
    var c := UnscaleEdge(levels, Edges(levels), cell, d, active);
    CellRunsAreClean(levels, cell, c, active);
  }

  lemma {:induction false} UnscaleEdge(levels: seq<bool>, edges: seq<Edge>, cell: nat, d: int, active: bool)
    returns (c: nat)
    requires AreEdges(levels, edges) && Edge(d, active) in Scale(edges, cell)
    ensures c < |levels| && levels[c] == active && d == c * cell
  {
    var k :| 0 <= k < |edges| && Scale(edges, cell)[k] == Edge(d, active);
    EdgeAt(levels, edges, k);
    c := edges[k].index;
  }

  // ---------------------------------------------------------------------------------------
  // The whole inference
  // ---------------------------------------------------------------------------------------

  datatype BaudEstimate = BaudEstimate(baud: int, format: Format, confidence: real, idleHigh: bool)

  /** `detect_idle_level`: the majority level. */
  predicate IdleHigh(channel: seq<bool>) {
    2 * Ones(channel) > |channel|
  }

  function Confidence(relativeError: real, framing: real): real {
    var margin := 1.0 - relativeError / BAUD_SNAP_TOLERANCE;
    var snap := if margin > 0.0 then margin else 0.0;
    Clamp01(snap * (0.5 + 0.5 * framing))
  }

  /** What `infer_uart` promises. */
  function Inferred(channel: seq<bool>, sampleRate: int): BaudEstimate {
    var idleHigh := IdleHigh(channel);
    match EstimateBitPeriod(Edges(channel))
    case None => BaudEstimate(0, EIGHT_N_ONE, 0.0, idleHigh)
    case Some(bitPeriod) =>
      if bitPeriod <= 0.0 then BaudEstimate(0, EIGHT_N_ONE, 0.0, idleHigh)
      else
        var raw := sampleRate as real / bitPeriod;
        TablePositive();
        var best := Nearest(Candidates(), raw);
        EdgesNonNegative(channel);
        var framing := FramingScore(channel, Edges(channel), bitPeriod, idleHigh);
        BaudEstimate(best.baud, best.format, Confidence(RelativeError(best.baud, raw), framing), idleHigh)
  }

  method InferUart(channel: seq<bool>, sampleRate: int) returns (estimate: BaudEstimate)
    ensures estimate == Inferred(channel, sampleRate)
  {
    var edges := ExtractEdges(channel);
    var idleHigh := IdleHigh(channel);
    var period := EstimateBitPeriod(edges);
    if period.None? || period.value <= 0.0 {
      return BaudEstimate(0, EIGHT_N_ONE, 0.0, idleHigh);
    }
    var bitPeriod := period.value;
    var raw := sampleRate as real / bitPeriod;
    TablePositive();
    var best := Nearest(Candidates(), raw);
    EdgesNonNegative(channel);
    var framing := CheckStartBitFraming(channel, edges, bitPeriod, idleHigh);
    var confidence := Confidence(RelativeError(best.baud, raw), framing);
    return BaudEstimate(best.baud, best.format, confidence, idleHigh);
  }

  /** Every departure of a generated capture is framed perfectly, whichever level idles. */
  lemma {:induction false} CaptureFraming(g: Generator)
    requires g.Signal().Ok?
    ensures var channel, bitSamples := g.Signal().value, Round(g.sampleRate as real / g.baud as real);
      && Indexed(Edges(channel))
      && FramingScore(channel, Edges(channel), bitSamples as real, IdleHigh(channel)) == 1.0
  {
    hide FramingScore, IdleHigh, LineLevels, Edges, Stretch, Round;
    var bitSamples := Round(g.sampleRate as real / g.baud as real);
    LineHasEdges(g.Payload(), g.format);
    CellFramingIsPerfect(LineLevels(g.Payload(), g.format), bitSamples, IdleHigh(g.Signal().value));
  }

  lemma CoarserThan(b: real, n: real)
    requires b > 0.0 && n >= 13.0
    ensures b / (2.0 * n) <= b / 26.0
  {
    var q := b / (2.0 * n);
    assert q * (2.0 * n) == b;
    assert q >= 0.0;
    assert q * (2.0 * n) >= q * 26.0;
  }

  lemma ConfidenceBound(baud: int, raw: real, n: real)
    requires baud > 0 && n > 0.0 && Abs(baud as real - raw) <= baud as real / (2.0 * n)
    ensures Confidence(RelativeError(baud, raw), 1.0) >= 1.0 - 50.0 / (3.0 * n)
  {
    var b, e := baud as real, RelativeError(baud, raw);
    var q := 1.0 / (2.0 * n);
    assert b / (2.0 * n) == b * q;
    DivideAtMost(Abs(b - raw), b, q);
    assert e / BAUD_SNAP_TOLERANCE <= q / BAUD_SNAP_TOLERANCE;
    assert q / BAUD_SNAP_TOLERANCE == 50.0 / (3.0 * n) by {
      assert q * (2.0 * n) == 1.0;
      assert (50.0 / (3.0 * n)) * (3.0 * n) == 50.0;
    }
    assert e >= 0.0;
  }

  /** Twelve samples per bit can be too few: 230400 baud at 2.88 MS/s reads as 240000, which
      is relatively nearer to 250000. */
  lemma {:induction false} TwelveSamplesCanFail(g: Generator)
    requires g.baud == 230400 && g.sampleRate == 2880000
    requires SomeLoneBit(g.Payload(), g.format)
    ensures Round(g.sampleRate as real / g.baud as real) == 12
    ensures g.Signal().Ok?
    ensures Inferred(g.Signal().value, g.sampleRate).baud != g.baud
  {
    assert g.sampleRate as real / g.baud as real == 12.5;
    NeighbourInferred(g, 12, g.sampleRate as real / 12.0);
  }

  lemma {:induction false} NeighbourInferred(g: Generator, bitSamples: int, raw: real)
    requires g.baud != 0 && bitSamples == Round(g.sampleRate as real / g.baud as real) >= 1
    requires raw == g.sampleRate as real / bitSamples as real == 240000.0
    requires SomeLoneBit(g.Payload(), g.format)
    ensures g.Signal().Ok?
    ensures Inferred(g.Signal().value, g.sampleRate).baud != 230400
  {
    InferredBaud(g, bitSamples);
    SnapPrefersNeighbour(raw);
  }

  lemma {:induction false} InferredBaud(g: Generator, bitSamples: int)
    requires g.baud != 0 && bitSamples == Round(g.sampleRate as real / g.baud as real) >= 1
    requires SomeLoneBit(g.Payload(), g.format)
    ensures PositiveRates(Candidates())
    ensures g.Signal().Ok?
    ensures Inferred(g.Signal().value, g.sampleRate).baud
         == Nearest(Candidates(), g.sampleRate as real / bitSamples as real).baud
  {
    hide Candidates, Nearest, LineLevels, SomeLoneBit, EstimateBitPeriod, Edges, Round;
    PayloadPeriodExactly(g);
    TablePositive();
  }

  lemma SnapPrefersNeighbour(raw: real)
    requires raw == 240000.0
    ensures PositiveRates(Candidates())
    ensures Nearest(Candidates(), raw).baud != 230400
  {
    TablePositive();
    var best, rival := Nearest(Candidates(), raw), Candidate(250000, EIGHT_N_ONE);
    CandidatesAreTheTable(rival);
    var i :| 0 <= i < |Candidates()| && Candidates()[i] == rival;
    assert RelativeError(best.baud, raw) <= RelativeError(250000, raw) < RelativeError(230400, raw);
  }
}
